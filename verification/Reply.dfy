/** What the bytes of a slave's replies mean: the wire format, and the parser as a function. */
module Reply {
  import opened Bytes

  const MAX_READ: nat := 10240

  type Object = map<bytes, bytes>

  // A handled reply: a stored object, or a status line and whether it answers a query.
  datatype Event = Array(fields: Object) | Line(pops: bool)

  datatype Parse =
    | Done(event: Event, rest: bytes)   // one reply, and the bytes after it
    | More                              // the reply is not complete
    | Stop                              // no reply starts like this
    | Exit                              // the process ends
    | Undefined                         // the C code has no defined behaviour

  datatype Numeral = Numeral(value: int, rest: bytes) | Unfinished

  function Signed(b: byte): int {
    if b < 128 then b else b - 256
  }

  lemma SignedIs(b: byte)
    ensures -128 <= Signed(b) <= 127 && (Signed(b) - b) % 256 == 0
  {
  }

  // The number before the first carriage return, whatever bytes it is made of.
  function ReadNum(s: bytes, acc: int): (r: Numeral)
    ensures r.Numeral? ==> 1 <= |r.rest| <= |s| && r.rest[0] == CR
  {
    if s == [] then Unfinished
    else if s[0] == CR then Numeral(acc, s)
    else ReadNum(s[1..], acc * 10 + Signed(s[0]) - ZERO)
  }

  // One item of an array: its text unless it is empty, and the bytes after it.
  datatype Item = Item(text: Option<bytes>, rest: bytes) | NoItem(why: Parse)

  function ReadItem(s: bytes, last: bool): (i: Item)
    requires s != []
    ensures i.Item? ==> |i.rest| <= |s| && (last || i.rest != [])
    ensures i.NoItem? ==> i.why.More? || i.why.Exit? || i.why.Undefined?
  {
    if s[0] != DOLLAR then NoItem(Exit)
    else
      var num := ReadNum(s[1..], 0);
      if num.Unfinished? then NoItem(More)
      else if num.value < 0 then NoItem(Undefined)
      else if |num.rest| < num.value + 4 || (|num.rest| == num.value + 4 && !last) then NoItem(More)
      else
        var text := num.rest[2..num.value + 2];
        Item(if text == [] then None else Some(Text(text)), num.rest[num.value + 4..])
  }

  // The object built so far, and the field name whose value is still to come.
  datatype Fields = Fields(key: Option<bytes>, fields: Object)

  // An item with an even number of items left is a field name, otherwise a value; empty ones are skipped.
  function Used(f: Fields, n: int, text: Option<bytes>): Option<Fields> {
    if text == None then Some(f)
    else if n % 2 == 0 then Some(Fields(text, f.fields))
    else if f.key == None then None
    else Some(Fields(None, f.fields[f.key.value := text.value]))
  }

  function ParseItems(s: bytes, n: int, f: Fields): (p: Parse)
    requires n > 0 ==> s != []
    ensures p.Done? ==> |p.rest| <= |s|
    decreases n
  {
    if n <= 0 then Done(Array(f.fields), s)
    else match ReadItem(s, n == 1)
      case NoItem(why) => why
      case Item(text, rest) =>
        match Used(f, n, text)
        case None => Undefined
        case Some(g) => ParseItems(rest, n - 1, g)
  }

  function ParseArray(s: bytes): (p: Parse)
    requires s != []
    ensures p.Done? ==> |p.rest| < |s|
  {
    var num := ReadNum(s[1..], 0);
    if num.Unfinished? || |num.rest| < 2 || (|num.rest| == 2 && num.value > 0) then More
    else ParseItems(num.rest[2..], num.value, Fields(None, map[]))
  }

  // The position of the first b, or the length.
  function Find(s: bytes, b: byte): (i: nat)
    ensures i <= |s| && b !in s[..i] && (i < |s| ==> s[i] == b)
  {
    if s == [] || s[0] == b then 0 else 1 + Find(s[1..], b)
  }

  // A line is taken to answer a query when its line feed is more than five bytes in.
  function ParseSimple(s: bytes): (p: Parse)
    requires s != []
    ensures p.Done? ==> |p.rest| < |s|
  {
    var i := 1 + Find(s[1..], LF);
    if i < |s| then Done(Line(i > 5), s[i + 1..]) else More
  }

  function ParseOne(s: bytes): (p: Parse)
    requires s != []
    ensures p.Done? ==> |p.rest| < |s|
  {
    if s[0] == STAR then ParseArray(s)
    else if s[0] == DOLLAR then Undefined
    else if s[0] == MINUS || s[0] == PLUS || s[0] == COLON then ParseSimple(s)
    else Stop
  }

  datatype Status = Waiting | Stopped | Exited | Broken

  // The replies handled, the bytes left over, and why parsing ended.
  datatype Outcome = Outcome(events: seq<Event>, tail: bytes, status: Status)

  function ParseAll(s: bytes): Outcome
    decreases |s|
  {
    if s == [] then Outcome([], [], Waiting)
    else match ParseOne(s)
      case Done(e, rest) => var o := ParseAll(rest); Outcome([e] + o.events, o.tail, o.status)
      case More => Outcome([], s, Waiting)
      case Stop => Outcome([], [], Stopped)
      case Exit => Outcome([], [], Exited)
      case Undefined => Outcome([], [], Broken)
  }

  // ---------------------------------------------------------------- chunks

  // strncpy: bytes after a NUL become NUL.
  function StrCopy(s: bytes): (c: bytes)
    ensures |c| == |s|
  {
    Text(s) + seq(|s| - TextLength(s), _ => 0)
  }

  function TextLength(s: bytes): (n: nat)
    ensures n <= |s| && n == |Text(s)|
  {
    TextShort(s);
    |Text(s)|
  }

  // The saved tail, unless it is too long.
  function Saved(tail: bytes): bytes {
    if |tail| < MAX_READ then StrCopy(tail) else []
  }

  // The bytes parsed when a chunk arrives on top of a saved tail.
  function Merged(buf: bytes, chunk: bytes): bytes {
    if buf == [] then chunk
    else if |buf| + |chunk| < 2 * MAX_READ then StrCopy(buf) + StrCopy(chunk)
    else chunk
  }

  function FeedOne(buf: bytes, chunk: bytes): (o: Outcome)
    ensures o.status != Waiting ==> o.tail == []
  {
    var o := ParseAll(Merged(buf, chunk));
    TailOnlyWaiting(Merged(buf, chunk));
    Outcome(o.events, Saved(o.tail), o.status)
  }

  lemma {:induction false} TailOnlyWaiting(s: bytes)
    ensures ParseAll(s).status != Waiting ==> ParseAll(s).tail == []
    decreases |s|
  {
    if s != [] && ParseOne(s).Done? { TailOnlyWaiting(ParseOne(s).rest); }
  }

  // Chunks fed one after the other; the process ends at an exit.
  function FeedAll(buf: bytes, chunks: seq<bytes>): Outcome
    decreases |chunks|
  {
    if chunks == [] then Outcome([], buf, Waiting)
    else
      var o := FeedOne(buf, chunks[0]);
      if o.status == Exited || o.status == Broken then o
      else
        var q := FeedAll(o.tail, chunks[1..]);
        Outcome(o.events + q.events, q.tail, q.status)
  }

  function Concat(chunks: seq<bytes>): bytes {
    if chunks == [] then [] else chunks[0] + Concat(chunks[1..])
  }

  // ---------------------------------------------------------------- more bytes do not change a finished parse

  lemma {:induction false} ReadNumExtends(s: bytes, acc: int, t: bytes)
    requires ReadNum(s, acc).Numeral?
    ensures ReadNum(s + t, acc) == Numeral(ReadNum(s, acc).value, ReadNum(s, acc).rest + t)
    decreases |s|
  {
    if s[0] != CR {
      ReadNumExtends(s[1..], acc * 10 + Signed(s[0]) - ZERO, t);
      assert (s + t)[1..] == s[1..] + t;
    }
  }

  function Extended(p: Parse, t: bytes): Parse {
    if p.Done? then p.(rest := p.rest + t) else p
  }

  lemma ItemExtends(s: bytes, last: bool, t: bytes)
    requires s != [] && ReadItem(s, last) != NoItem(More)
    ensures var i := ReadItem(s, last);
      ReadItem(s + t, last) == if i.Item? then i.(rest := i.rest + t) else i
  {
    if s[0] == DOLLAR {
      var num := ReadNum(s[1..], 0);
      assert (s + t)[1..] == s[1..] + t;
      ReadNumExtends(s[1..], 0, t);
      if num.value >= 0 {
        assert (num.rest + t)[num.value + 4..] == num.rest[num.value + 4..] + t;
        assert (num.rest + t)[2..num.value + 2] == num.rest[2..num.value + 2];
      }
    }
  }

  lemma {:induction false} ItemsExtend(s: bytes, n: int, f: Fields, t: bytes)
    requires (n > 0 ==> s != []) && !ParseItems(s, n, f).More?
    ensures ParseItems(s + t, n, f) == Extended(ParseItems(s, n, f), t)
    decreases n
  {
    hide ReadItem;
    if n > 0 {
      ItemExtends(s, n == 1, t);
      var i := ReadItem(s, n == 1);
      if i.Item? && Used(f, n, i.text).Some? {
        ItemsExtend(i.rest, n - 1, Used(f, n, i.text).value, t);
      }
    }
  }

  lemma {:induction false} FindExtends(s: bytes, b: byte, t: bytes)
    requires Find(s, b) < |s|
    ensures Find(s + t, b) == Find(s, b)
  {
    if s[0] != b {
      FindExtends(s[1..], b, t);
      assert (s + t)[1..] == s[1..] + t;
    }
  }

  // A parse that is not waiting for more bytes comes out the same however the stream goes on.
  lemma OneExtends(s: bytes, t: bytes)
    requires s != [] && !ParseOne(s).More?
    ensures ParseOne(s + t) == Extended(ParseOne(s), t)
  {
    assert (s + t)[1..] == s[1..] + t;
    if s[0] == STAR {
      var num := ReadNum(s[1..], 0);
      ReadNumExtends(s[1..], 0, t);
      assert (num.rest + t)[2..] == num.rest[2..] + t;
      ItemsExtend(num.rest[2..], num.value, Fields(None, map[]), t);
    } else if s[0] == MINUS || s[0] == PLUS || s[0] == COLON {
      FindExtends(s[1..], LF, t);
      var i := 1 + Find(s[1..], LF);
      assert (s + t)[i + 1..] == s[i + 1..] + t;
    }
  }

  // Parsing can stop anywhere and go on later from the tail.
  lemma {:induction false} AllSplits(a: bytes, b: bytes)
    requires ParseAll(a).status == Waiting
    ensures var x := ParseAll(a); var y := ParseAll(x.tail + b);
      ParseAll(a + b) == Outcome(x.events + y.events, y.tail, y.status)
    decreases |a|
  {
    hide ParseOne;
    var x := ParseAll(a);
    if a == [] {
      assert a + b == x.tail + b == b;
      var y := ParseAll(b);
      assert x.events + y.events == y.events;
    } else if ParseOne(a).Done? {
      var rest := ParseOne(a).rest;
      AllSplits(rest, b);
      OneExtends(a, b);
      var y := ParseAll(x.tail + b);
      assert x.events + y.events == [ParseOne(a).event] + (ParseAll(rest).events + y.events);
    } else {
      var y := ParseAll(a + b);
      assert x.events + y.events == y.events;
    }
  }

  lemma {:induction false} PrefixWaits(a: bytes, b: bytes)
    requires ParseAll(a + b).status == Waiting
    ensures ParseAll(a).status == Waiting
    decreases |a|
  {
    if a != [] && !ParseOne(a).More? {
      OneExtends(a, b);
      if ParseOne(a).Done? { PrefixWaits(ParseOne(a).rest, b); }
    }
  }

  lemma {:induction false} TailIsSuffix(s: bytes)
    ensures |ParseAll(s).tail| <= |s|
    ensures 0 !in s && ParseAll(s).status == Waiting ==> 0 !in ParseAll(s).tail
    decreases |s|
  {
    if s != [] && ParseOne(s).Done? {
      TailIsSuffix(ParseOne(s).rest);
      RestIsSuffix(s);
    }
  }

  lemma {:induction false} ReadNumSuffix(s: bytes, acc: int)
    requires ReadNum(s, acc).Numeral?
    ensures var r := ReadNum(s, acc).rest; r == s[|s| - |r|..]
    decreases |s|
  {
    if s[0] != CR {
      ReadNumSuffix(s[1..], acc * 10 + Signed(s[0]) - ZERO);
      var r := ReadNum(s, acc).rest;
      assert s[1..][|s| - 1 - |r|..] == s[|s| - |r|..];
    }
  }

  lemma ItemSuffix(s: bytes, last: bool)
    requires s != [] && ReadItem(s, last).Item?
    ensures var r := ReadItem(s, last).rest; r == s[|s| - |r|..]
  {
    ReadNumSuffix(s[1..], 0);
  }

  lemma {:induction false} ItemsSuffix(s: bytes, n: int, f: Fields)
    requires (n > 0 ==> s != []) && ParseItems(s, n, f).Done?
    ensures var r := ParseItems(s, n, f).rest; r == s[|s| - |r|..]
    decreases n
  {
    hide ReadItem;
    if n > 0 {
      var i := ReadItem(s, n == 1);
      ItemSuffix(s, n == 1);
      ItemsSuffix(i.rest, n - 1, Used(f, n, i.text).value);
    }
  }

  lemma RestIsSuffix(s: bytes)
    requires s != [] && ParseOne(s).Done?
    ensures var r := ParseOne(s).rest; r == s[|s| - |r|..]
  {
    if s[0] == STAR {
      ReadNumSuffix(s[1..], 0);
      var r := ReadNum(s[1..], 0).rest;
      assert r[2..] == s[|s| - |r| + 2..];
      ItemsSuffix(r[2..], ReadNum(s[1..], 0).value, Fields(None, map[]));
    }
  }

  lemma StrCopyWhole(s: bytes)
    requires 0 !in s
    ensures StrCopy(s) == s
  {
    TextWhole(s);
  }

  // A tail survives in the buffer exactly when it is short enough.
  lemma SavedIff(tail: bytes)
    requires 0 !in tail
    ensures Saved(tail) == tail <==> |tail| < MAX_READ
  {
    StrCopyWhole(tail);
  }

  // Every prefix of s leaves a tail that the buffer can hold.
  ghost predicate Savable(s: bytes) {
    && 0 !in s && ParseAll(s).status == Waiting
    && forall n {:trigger s[..n]} :: 0 <= n <= |s| ==> |ParseAll(s[..n]).tail| < MAX_READ
  }

  // Whatever the chunks, the same replies are handled as in one parse, and the buffer is the unparsed tail.
  lemma {:induction false} FeedIsParse(before: bytes, chunks: seq<bytes>)
    requires Savable(before + Concat(chunks))
    requires forall c :: c in chunks ==> |c| <= MAX_READ
    ensures FeedAll(ParseAll(before).tail, chunks).status == Waiting
    ensures FeedAll(ParseAll(before).tail, chunks).tail == ParseAll(before + Concat(chunks)).tail
    ensures ParseAll(before).events + FeedAll(ParseAll(before).tail, chunks).events
         == ParseAll(before + Concat(chunks)).events
    decreases |chunks|
  {
    hide ParseAll, FeedOne;
    var x := ParseAll(before);
    if chunks == [] {
      assert x.events + [] == x.events;
      assert before + Concat(chunks) == before;
    } else {
      var (c, more) := (chunks[0], Concat(chunks[1..]));
      var s := before + Concat(chunks);
      assert s == (before + c) + more == before + (c + more);
      assert s[..|before|] == before && s[..|before + c|] == before + c;
      PrefixWaits(before, c + more);
      PrefixWaits(before + c, more);
      StepIsParse(before, c);
      FeedIsParse(before + c, chunks[1..]);
      var o := FeedOne(x.tail, c);
      var q := FeedAll(o.tail, chunks[1..]);
      assert x.events + (o.events + q.events) == (x.events + o.events) + q.events;
    }
  }

  lemma StepIsParse(before: bytes, c: bytes)
    requires 0 !in before + c && |c| <= MAX_READ
    requires ParseAll(before).status == Waiting && ParseAll(before + c).status == Waiting
    requires |ParseAll(before).tail| < MAX_READ && |ParseAll(before + c).tail| < MAX_READ
    ensures var o := FeedOne(ParseAll(before).tail, c);
      && o.status == Waiting && o.tail == ParseAll(before + c).tail
      && ParseAll(before).events + o.events == ParseAll(before + c).events
  {
    var x := ParseAll(before);
    assert 0 !in before && 0 !in c by {
      assert forall b <- before :: b in before + c;
      assert forall b <- c :: b in before + c;
    }
    TailIsSuffix(before);
    StrCopyWhole(x.tail);
    StrCopyWhole(c);
    assert [] + c == c;
    assert Merged(x.tail, c) == x.tail + c;
    AllSplits(before, c);
    TailIsSuffix(before + c);
    StrCopyWhole(ParseAll(before + c).tail);
  }

  // ---------------------------------------------------------------- well-formed replies

  // What a slave answers to hgetall: the fields of a hash, or a status or error line.
  datatype Message = Hash(pairs: seq<(bytes, bytes)>) | Notice(kind: byte, text: bytes)

  predicate WellFormed(m: Message) {
    match m
    case Hash(pairs) => forall p <- pairs :: Storable(p)
    case Notice(kind, text) => (kind == MINUS || kind == PLUS || kind == COLON) && LF !in text && 0 !in text
  }

  // A field and its value.  A value may be empty; an empty field must have an empty value.
  predicate Storable(p: (bytes, bytes)) {
    0 !in p.0 && 0 !in p.1 && (p.0 == [] ==> p.1 == [])
  }

  function EncodeItem(x: bytes): bytes {
    [DOLLAR] + Decimal(|x|) + CRLF + x + CRLF
  }

  function EncodePairs(pairs: seq<(bytes, bytes)>): bytes {
    if pairs == [] then [] else EncodeItem(pairs[0].0) + EncodeItem(pairs[0].1) + EncodePairs(pairs[1..])
  }

  function Encode(m: Message): (s: bytes)
    ensures s != []
  {
    match m
    case Hash(pairs) => [STAR] + Decimal(2 * |pairs|) + CRLF + EncodePairs(pairs)
    case Notice(kind, text) => [kind] + text + CRLF
  }

  function EncodeAll(ms: seq<Message>): bytes {
    if ms == [] then [] else Encode(ms[0]) + EncodeAll(ms[1..])
  }

  // Later values of a repeated field win; empty values are skipped.
  function Overlay(o: Object, pairs: seq<(bytes, bytes)>): Object
    decreases |pairs|
  {
    if pairs == [] then o
    else if pairs[0].1 == [] then Overlay(o, pairs[1..])
    else Overlay(o[pairs[0].0 := pairs[0].1], pairs[1..])
  }

  // What the object holds in the end: of each field the last value that is not empty.
  lemma {:induction false} OverlayHolds(o: Object, pairs: seq<(bytes, bytes)>, field: bytes, i: nat)
    requires i < |pairs| && pairs[i].0 == field && pairs[i].1 != []
    requires forall j :: i < j < |pairs| && pairs[j].0 == field ==> pairs[j].1 == []
    ensures field in Overlay(o, pairs) && Overlay(o, pairs)[field] == pairs[i].1
    decreases |pairs|
  {
    var (p, rest) := (pairs[0], pairs[1..]);
    var next := if p.1 == [] then o else o[p.0 := p.1];
    assert forall j :: 0 < j < |pairs| ==> pairs[j] == rest[j - 1];
    if i > 0 {
      OverlayHolds(next, rest, field, i - 1);
    } else {
      OverlayKeeps(next, rest, field);
    }
  }

  lemma {:induction false} OverlayKeeps(o: Object, pairs: seq<(bytes, bytes)>, field: bytes)
    requires forall i :: 0 <= i < |pairs| && pairs[i].0 == field ==> pairs[i].1 == []
    ensures field in Overlay(o, pairs) <==> field in o
    ensures field in o ==> Overlay(o, pairs)[field] == o[field]
    decreases |pairs|
  {
    if pairs != [] {
      var (p, rest) := (pairs[0], pairs[1..]);
      assert forall j :: 0 < j < |pairs| ==> pairs[j] == rest[j - 1];
      OverlayKeeps(if p.1 == [] then o else o[p.0 := p.1], rest, field);
    }
  }

  function EventOf(m: Message): Event {
    match m
    case Hash(pairs) => Array(Overlay(map[], pairs))
    case Notice(_, text) => Line(|text| > 3)
  }

  function EventsOf(ms: seq<Message>): seq<Event> {
    if ms == [] then [] else [EventOf(ms[0])] + EventsOf(ms[1..])
  }

  lemma {:induction false} ReadDigits(a: bytes, b: bytes, t: bytes)
    requires forall i :: 0 <= i < |b| ==> ZERO <= b[i] <= ZERO + 9
    requires t != [] && t[0] == CR
    ensures ReadNum(b + t, Value(a)) == Numeral(Value(a + b), t)
    decreases |b|
  {
    if b == [] {
      assert b + t == t && a + b == a;
    } else {
      var c := a + [b[0]];
      assert c[..|c| - 1] == a;
      assert (b + t)[1..] == b[1..] + t && c + b[1..] == a + b;
      ReadDigits(c, b[1..], t);
    }
  }

  lemma ReadDecimal(n: nat, t: bytes)
    requires t != [] && t[0] == CR
    ensures ReadNum(Decimal(n) + t, 0) == Numeral(n, t)
  {
    ReadDigits([], Decimal(n), t);
    assert [] + Decimal(n) == Decimal(n);
    DecimalValue(n);
  }

  lemma ItemRoundTrip(x: bytes, t: bytes, last: bool)
    requires 0 !in x && (last || t != [])
    ensures ReadItem(EncodeItem(x) + t, last) == Item(if x == [] then None else Some(x), t)
  {
    var s := EncodeItem(x) + t;
    var r := CRLF + x + CRLF + t;
    assert s[1..] == Decimal(|x|) + r;
    ReadDecimal(|x|, r);
    assert r[2..|x| + 2] == x && r[|x| + 4..] == t;
    TextWhole(x);
  }

  // A field and its value, after which the field waits for a value still if this one was empty.
  lemma PairUsed(p: (bytes, bytes), n: int, f: Fields)
    requires Storable(p) && n % 2 == 0
    ensures var field := Used(f, n, if p.0 == [] then None else Some(p.0));
      && field.Some?
      && var value := Used(field.value, n - 1, if p.1 == [] then None else Some(p.1));
         value.Some? && value.value.fields == if p.1 == [] then f.fields else f.fields[p.0 := p.1]
  {
  }

  lemma {:induction false} PairsRoundTrip(pairs: seq<(bytes, bytes)>, f: Fields, t: bytes)
    requires forall p <- pairs :: Storable(p)
    ensures ParseItems(EncodePairs(pairs) + t, 2 * |pairs|, f) == Done(Array(Overlay(f.fields, pairs)), t)
    decreases |pairs|
  {
    hide ReadItem, EncodeItem, Used;
    if pairs == [] {
      assert EncodePairs(pairs) + t == t;
    } else {
      var (p, n) := (pairs[0], 2 * |pairs|);
      assert p in pairs && Storable(p);
      var after := EncodePairs(pairs[1..]) + t;
      var value := EncodeItem(p.1) + after;
      assert EncodePairs(pairs) + t == EncodeItem(p.0) + value;
      ItemNotEmpty(p.0);
      ItemNotEmpty(p.1);
      if |pairs| > 1 { ItemNotEmpty(pairs[1].0); }
      ItemRoundTrip(p.0, value, false);
      ItemRoundTrip(p.1, after, n - 1 == 1);
      PairUsed(p, n, f);
      var g := Used(f, n, if p.0 == [] then None else Some(p.0)).value;
      var h := Used(g, n - 1, if p.1 == [] then None else Some(p.1)).value;
      PairsRoundTrip(pairs[1..], h, t);
      assert ParseItems(value, n - 1, g) == ParseItems(after, n - 2, h);
    }
  }

  lemma ItemNotEmpty(x: bytes)
    ensures EncodeItem(x) != []
  {
  }

  lemma {:induction false} FindAfter(text: bytes, t: bytes)
    requires LF !in text
    ensures Find(text + [CR] + [LF] + t, LF) == |text| + 1
  {
    var s := text + [CR] + [LF] + t;
    if text != [] {
      FindAfter(text[1..], t);
      assert s[1..] == text[1..] + [CR] + [LF] + t;
    }
  }

  lemma HashRoundTrip(pairs: seq<(bytes, bytes)>, t: bytes)
    requires forall p <- pairs :: Storable(p)
    ensures ParseArray(Encode(Hash(pairs)) + t) == Done(Array(Overlay(map[], pairs)), t)
  {
    hide ParseItems, EncodeItem;
    var s := Encode(Hash(pairs)) + t;
    var items := EncodePairs(pairs) + t;
    var r := CRLF + items;
    assert s[1..] == Decimal(2 * |pairs|) + r;
    ReadDecimal(2 * |pairs|, r);
    assert r[2..] == items;
    if pairs != [] { ItemNotEmpty(pairs[0].0); }
    PairsRoundTrip(pairs, Fields(None, map[]), t);
  }

  lemma NoticeRoundTrip(kind: byte, text: bytes, t: bytes)
    requires LF !in text
    ensures ParseSimple(Encode(Notice(kind, text)) + t) == Done(Line(|text| > 3), t)
  {
    var s := Encode(Notice(kind, text)) + t;
    assert s[1..] == text + [CR] + [LF] + t;
    FindAfter(text, t);
    assert s[|text| + 3..] == t;
  }

  // Parsing undoes encoding, whatever comes after.
  lemma OneRoundTrip(m: Message, t: bytes)
    requires WellFormed(m)
    ensures ParseOne(Encode(m) + t) == Done(EventOf(m), t)
  {
    hide ParseArray, ParseSimple;
    match m
    case Hash(pairs) => HashRoundTrip(pairs, t);
    case Notice(kind, text) => NoticeRoundTrip(kind, text, t);
  }

  // The hash {a: x, b: ""} as hgetall answers it: the empty value is not stored.
  const SAMPLE: seq<(bytes, bytes)> := [([97], [120]), ([98], [])]

  lemma SampleItems()
    ensures EncodeItem([97]) == [36, 49, 13, 10, 97, 13, 10] && EncodeItem([120]) == [36, 49, 13, 10, 120, 13, 10]
    ensures EncodeItem([98]) == [36, 49, 13, 10, 98, 13, 10] && EncodeItem([]) == [36, 48, 13, 10, 13, 10]
  {
    assert Decimal(1) == [49] && Decimal(0) == [48];
  }

  lemma SampleEncoded()
    ensures Encode(Hash(SAMPLE)) == [42, 52, 13, 10] + EncodePairs(SAMPLE)
    ensures EncodePairs(SAMPLE) == EncodeItem([97]) + EncodeItem([120]) + (EncodeItem([98]) + EncodeItem([]))
  {
    hide EncodeItem;
    assert Decimal(4) == [52];
    assert SAMPLE[1..] == [([98], [])] && SAMPLE[1..][1..] == [];
    assert EncodePairs(SAMPLE[1..]) == EncodeItem([98]) + EncodeItem([]);
  }

  lemma EmptyValueSkipped()
    ensures ParseOne([42, 52, 13, 10] + ([36, 49, 13, 10, 97, 13, 10] + [36, 49, 13, 10, 120, 13, 10]
                     + ([36, 49, 13, 10, 98, 13, 10] + [36, 48, 13, 10, 13, 10])))
         == Done(Array(map[[97] := [120]]), [])
  {
    hide ParseOne, Encode, EncodePairs, EncodeItem;
    SampleItems();
    SampleEncoded();
    OneRoundTrip(Hash(SAMPLE), []);
    assert Encode(Hash(SAMPLE)) + [] == Encode(Hash(SAMPLE));
    assert SAMPLE[1..] == [([98], [])] && SAMPLE[1..][1..] == [];
  }

  // "-", "+" and ":" begin a line.
  lemma LineKinds(kind: byte)
    ensures WellFormed(Notice(kind, [])) <==> kind in {45, 43, 58}
  {
  }

  lemma ProperPrefixWaits(m: Message, p: bytes)
    requires WellFormed(m) && p < Encode(m) && p != []
    ensures ParseOne(p) == More
  {
    var t := Encode(m)[|p|..];
    assert p + t == Encode(m) == Encode(m) + [];
    OneRoundTrip(m, []);
    if !ParseOne(p).More? { OneExtends(p, t); }
  }

  // How many of the messages are complete in s, a prefix of their encoding.
  function Arrived(ms: seq<Message>, s: bytes): (k: nat)
    ensures k <= |ms|
    decreases |ms|
  {
    if ms == [] || |s| < |Encode(ms[0])| then 0 else 1 + Arrived(ms[1..], s[|Encode(ms[0])|..])
  }

  // What follows the complete messages.
  function Pending(ms: seq<Message>, s: bytes): bytes
    decreases |ms|
  {
    if ms == [] || |s| < |Encode(ms[0])| then s else Pending(ms[1..], s[|Encode(ms[0])|..])
  }

  lemma FirstArrived(ms: seq<Message>, s: bytes)
    requires ms != [] && |s| >= |Encode(ms[0])|
    ensures var rest := s[|Encode(ms[0])|..];
      Arrived(ms, s) == 1 + Arrived(ms[1..], rest) && Pending(ms, s) == Pending(ms[1..], rest)
  {
  }

  lemma EncodeFirst(ms: seq<Message>, k: nat)
    requires 1 <= k <= |ms|
    ensures EncodeAll(ms[..k]) == Encode(ms[0]) + EncodeAll(ms[1..][..k - 1])
  {
    hide Encode;
    assert ms[..k][1..] == ms[1..][..k - 1];
  }

  lemma NoneArrived(ms: seq<Message>, s: bytes)
    requires ms == [] || |s| < |Encode(ms[0])|
    ensures Arrived(ms, s) == 0 && Pending(ms, s) == s && EncodeAll(ms[..0]) == []
  {
  }

  // A prefix of a stream is its complete messages and the beginning of the next.
  lemma {:induction false} StreamSplits(ms: seq<Message>, s: bytes)
    requires s <= EncodeAll(ms)
    ensures s == EncodeAll(ms[..Arrived(ms, s)]) + Pending(ms, s)
    ensures if Arrived(ms, s) == |ms| then Pending(ms, s) == [] else Pending(ms, s) < Encode(ms[Arrived(ms, s)])
    decreases |ms|
  {
    hide Encode, Arrived, Pending;
    if ms == [] {
      NoneArrived(ms, s);
    } else if |s| < |Encode(ms[0])| {
      NoneArrived(ms, s);
      PrefixOfSum(s, Encode(ms[0]), EncodeAll(ms[1..]));
    } else {
      var e := Encode(ms[0]);
      var rest := s[|e|..];
      PastFirst(s, e, EncodeAll(ms[1..]));
      StreamSplits(ms[1..], rest);
      FirstArrived(ms, s);
      var k := Arrived(ms[1..], rest);
      EncodeFirst(ms, k + 1);
      SumSplits(s, e, rest, EncodeAll(ms[1..][..k]), Pending(ms[1..], rest));
    }
  }

  lemma SumSplits(s: bytes, e: bytes, rest: bytes, done: bytes, pending: bytes)
    requires s == e + rest && rest == done + pending
    ensures s == (e + done) + pending
  {
  }

  // One parse of any prefix of a stream of replies handles the complete ones and leaves the rest.
  lemma {:induction false} StreamParses(ms: seq<Message>, s: bytes)
    requires (forall m <- ms :: WellFormed(m)) && s <= EncodeAll(ms)
    ensures ParseAll(s) == Outcome(EventsOf(ms[..Arrived(ms, s)]), Pending(ms, s), Waiting)
    decreases |ms|
  {
    hide Encode, ParseOne, WellFormed;
    var k := Arrived(ms, s);
    StreamSplits(ms, s);
    if ms == [] {
    } else if k == 0 {
      if s != [] { ProperPrefixWaits(ms[0], s); }
    } else {
      var (e, after) := (Encode(ms[0]), EncodeAll(ms[1..]));
      var rest := s[|e|..];
      PastFirst(s, e, after);
      StreamParses(ms[1..], rest);
      OneRoundTrip(ms[0], rest);
      assert ms[..k][0] == ms[0] && ms[..k][1..] == ms[1..][..k - 1];
    }
  }

  lemma PastFirst(s: bytes, a: bytes, b: bytes)
    requires s <= a + b && |s| >= |a|
    ensures s == a + s[|a|..] && s[|a|..] <= b
  {
    assert s == (a + b)[..|s|];
    assert s[|a|..] == b[..|s| - |a|];
  }

  lemma PrefixOfSum(s: bytes, a: bytes, b: bytes)
    requires s <= a + b && |s| < |a|
    ensures s < a
  {
    assert s == (a + b)[..|s|] == a[..|s|];
  }

  // Replies that fit the buffer.
  predicate Fit(ms: seq<Message>) {
    forall m <- ms :: WellFormed(m) && |Encode(m)| <= MAX_READ
  }

  // The parser does not depend on fragmentation.
  lemma Fragmentation(ms: seq<Message>, chunks: seq<bytes>)
    requires Fit(ms) && Concat(chunks) <= EncodeAll(ms)
    requires forall c <- chunks :: |c| <= MAX_READ
    ensures var s := Concat(chunks);
      FeedAll([], chunks) == Outcome(EventsOf(ms[..Arrived(ms, s)]), Pending(ms, s), Waiting)
    ensures Concat(chunks) == EncodeAll(ms) ==> FeedAll([], chunks) == Outcome(EventsOf(ms), [], Waiting)
  {
    hide ParseAll, FeedAll, Encode, Arrived, Pending;
    var s := Concat(chunks);
    StreamParses(ms, s);
    PrefixesSavable(ms, s);
    assert [] + s == s;
    EmptyParses();
    FeedIsParse([], chunks);
    assert [] + FeedAll([], chunks).events == FeedAll([], chunks).events;
    if s == EncodeAll(ms) {
      StreamEnds(ms);
      assert ms[..|ms|] == ms;
    }
  }

  // A longer reply is lost when it comes in full chunks: its first chunk leaves nothing in the buffer.
  lemma TooLongIsLost(m: Message)
    requires WellFormed(m) && |Encode(m)| > MAX_READ
    ensures FeedOne([], Encode(m)[..MAX_READ]) == Outcome([], [], Waiting)
  {
    ProperPrefixWaits(m, Encode(m)[..MAX_READ]);
  }

  lemma OneFed(m: Message)
    requires WellFormed(m)
    ensures FeedOne([], Encode(m)) == Outcome([EventOf(m)], [], Waiting)
  {
    hide ParseOne, Encode, EventOf;
    OneRoundTrip(m, []);
    assert Encode(m) + [] == Encode(m);
    EmptyParses();
    assert [EventOf(m)] + ParseAll([]).events == [EventOf(m)];
    assert ParseAll(Encode(m)) == Outcome([EventOf(m)], [], Waiting);
    assert StrCopy([]) == [] by { StrCopyWhole([]); }
  }

  predicate StartsNothing(b: byte) {
    b != STAR && b != DOLLAR && b != MINUS && b != PLUS && b != COLON
  }

  // Chunks as a read delivers them, and a way to cut bytes into such.
  predicate Small(chunks: seq<bytes>) {
    forall c <- chunks :: |c| <= MAX_READ
  }

  lemma Chopped(s: bytes) returns (chunks: seq<bytes>)
    ensures Small(chunks) && Concat(chunks) == s
    decreases |s|
  {
    if |s| <= MAX_READ {
      chunks := [s];
      assert Concat(chunks) == s + Concat([]);
    } else {
      var rest := Chopped(s[MAX_READ..]);
      chunks := [s[..MAX_READ]] + rest;
      assert chunks[1..] == rest;
    }
  }

  lemma {:induction false} ConcatTwo(a: seq<bytes>, b: seq<bytes>)
    ensures Concat(a + b) == Concat(a) + Concat(b)
    decreases |a|
  {
    if a == [] {
      assert a + b == b;
    } else {
      assert (a + b)[1..] == a[1..] + b;
      ConcatTwo(a[1..], b);
    }
  }

  lemma {:induction false} FeedTwo(buf: bytes, a: seq<bytes>, b: seq<bytes>)
    requires FeedAll(buf, a).status == Waiting
    ensures var o := FeedAll(buf, a); var q := FeedAll(o.tail, b);
      FeedAll(buf, a + b) == Outcome(o.events + q.events, q.tail, q.status)
    decreases |a|
  {
    hide FeedOne;
    if a == [] {
      assert a + b == b;
      assert [] + FeedAll(buf, b).events == FeedAll(buf, b).events;
    } else {
      assert (a + b)[1..] == a[1..] + b;
      var first := FeedOne(buf, a[0]);
      FeedTwo(first.tail, a[1..], b);
      var (o, q) := (FeedAll(first.tail, a[1..]), FeedAll(FeedAll(first.tail, a[1..]).tail, b));
      assert first.events + (o.events + q.events) == (first.events + o.events) + q.events;
    }
  }

  // Some split of s has nothing handled and nothing left over.
  ghost predicate Droppable(s: bytes) {
    exists chunks :: Small(chunks) && Concat(chunks) == s && FeedAll([], chunks) == Outcome([], [], Waiting)
  }

  // Some split of s runs into what is undefined.
  ghost predicate Breaks(s: bytes) {
    exists chunks :: Small(chunks) && Concat(chunks) == s && FeedAll([], chunks).status == Broken
  }

  lemma OneMoreDropped(s: bytes, c: bytes)
    requires Droppable(s) && |c| <= MAX_READ
    requires FeedOne([], c) == Outcome([], [], Waiting) || FeedOne([], c) == Outcome([], [], Stopped)
    ensures Droppable(s + c)
  {
    hide FeedOne;
    var chunks :| Small(chunks) && Concat(chunks) == s && FeedAll([], chunks) == Outcome([], [], Waiting);
    var last := [c];
    ConcatTwo(chunks, last);
    FeedTwo([], chunks, last);
    assert last[1..] == [] && Concat(last) == c + Concat([]) == c;
    assert Small(chunks + last);
  }

  lemma OneDollar()
    ensures FeedOne([], [DOLLAR]).status == Broken
  {
  }

  lemma DollarFirst(more: seq<bytes>)
    ensures var last := [[DOLLAR]] + more; FeedAll([], last).status == Broken && Concat(last) == [DOLLAR] + Concat(more)
  {
    hide FeedOne;
    OneDollar();
    var last := [[DOLLAR]] + more;
    assert last[0] == [DOLLAR] && last[1..] == more;
  }

  lemma DollarBreaks(s: bytes, rest: bytes)
    requires Droppable(s) && rest != [] && rest[0] == DOLLAR
    ensures Breaks(s + rest)
  {
    hide FeedOne, FeedAll, Concat;
    var chunks :| Small(chunks) && Concat(chunks) == s && FeedAll([], chunks) == Outcome([], [], Waiting);
    var more := Chopped(rest[1..]);
    DollarFirst(more);
    assert rest == [DOLLAR] + rest[1..];
    var last := [[DOLLAR]] + more;
    ConcatTwo(chunks, last);
    FeedTwo([], chunks, last);
    assert Small(chunks + last);
  }

  lemma NothingStarts(c: bytes)
    requires c != [] && StartsNothing(c[0])
    ensures FeedOne([], c) == Outcome([], [], Stopped)
  {
    StrCopyWhole([]);
  }

  lemma {:induction false} NeverFound(s: bytes, b: byte)
    requires b !in s
    ensures Find(s, b) == |s| && (b == CR ==> forall acc :: ReadNum(s, acc).Unfinished?)
  {
    if s != [] {
      NeverFound(s[1..], b);
    }
  }

  // A full chunk of bytes that all start something is neither a line nor a number.
  lemma StartersDropped(c: bytes)
    requires |c| == MAX_READ && c[0] != DOLLAR && forall b <- c :: !StartsNothing(b)
    ensures FeedOne([], c) == Outcome([], [], Waiting)
  {
    var t := c[1..];
    assert forall b <- t :: b in c;
    NeverFound(t, LF);
    NeverFound(t, CR);
    assert c[0] in c;
    assert ParseOne(c) == More;
  }

  // Where a window of MAX_READ places to cut at has been reached with nothing handled, the window moves on.
  lemma {:induction false} WindowMoves(e: bytes, a: nat)
    requires a <= |e| && forall p {:trigger e[..p]} :: a <= p < a + MAX_READ && p <= |e| ==> Droppable(e[..p])
    ensures Droppable(e) || Breaks(e)
    decreases |e| - a
  {
    hide Droppable, Breaks, StartsNothing, FeedOne;
    if |e| < a + MAX_READ {
      assert e[..|e|] == e;
    } else if exists p :: a <= p < a + MAX_READ && p < |e| && StartsNothing(e[p]) {
      var p :| a <= p < a + MAX_READ && p < |e| && StartsNothing(e[p]);
      forall q {:trigger e[..q]} | p + 1 <= q < p + 1 + MAX_READ && q <= |e| ensures Droppable(e[..q]) {
        assert e[..q] == e[..p] + e[p..q];
        NothingStarts(e[p..q]);
        OneMoreDropped(e[..p], e[p..q]);
      }
      WindowMoves(e, p + 1);
    } else if |e| > a && e[a] == DOLLAR {
      assert e == e[..a] + e[a..];
      DollarBreaks(e[..a], e[a..]);
    } else {
      var c := e[a..a + MAX_READ];
      forall b | b in c ensures !StartsNothing(b) {
        var k :| 0 <= k < |c| && c[k] == b;
        assert e[a + k] == b;
      }
      StartersDropped(c);
      OneMoreDropped(e[..a], c);
      assert e[..a + MAX_READ] == e[..a] + c;
      WindowMoves(e, a + 1);
    }
  }

  // The beginning of a longer reply in two chunks.
  lemma BeginningDropped(m: Message, p: nat)
    requires WellFormed(m) && MAX_READ <= p < 2 * MAX_READ && p < |Encode(m)|
    ensures Droppable(Encode(m)[..p])
  {
    hide Encode, WellFormed, ParseOne;
    var e := Encode(m);
    var (a, b) := (e[..MAX_READ - 1], e[MAX_READ - 1..p]);
    MessageClean(m);
    assert 0 !in a && 0 !in b && a + b == e[..p];
    ProperPrefixWaits(m, a);
    ProperPrefixWaits(m, a + b);
    StrCopyWhole(a);
    StrCopyWhole(b);
    assert FeedOne([], a) == Outcome([], a, Waiting);
    assert Merged(a, b) == a + b;
    assert FeedOne(a, b) == Outcome([], [], Waiting);
    var (chunks, last) := ([a, b], [b]);
    assert chunks[1..] == last && last[1..] == [] && Concat(last) == b + Concat([]) == b;
    assert FeedAll(a, last) == Outcome([], [], Waiting);
    assert Small(chunks) && Concat(chunks) == e[..p];
  }

  lemma {:induction false} PairsEnd(pairs: seq<(bytes, bytes)>)
    requires pairs != []
    ensures var s := EncodePairs(pairs); s != [] && s[|s| - 1] == LF
  {
    hide Decimal;
    var item := EncodeItem(pairs[0].1);
    assert item[|item| - 1] == LF;
    if |pairs| > 1 { PairsEnd(pairs[1..]); }
  }

  lemma MessageEnds(m: Message)
    ensures var e := Encode(m); e[|e| - 1] == LF
  {
    hide Decimal;
    if m.Hash? && m.pairs != [] { PairsEnd(m.pairs); }
  }

  // Every reply longer than MAX_READ can come in chunks that leave nothing of it, unless it is more than twice as
  // long and a dollar sign in it gets to where a reply is expected.
  lemma LongDropped(m: Message)
    requires WellFormed(m) && |Encode(m)| > MAX_READ
    ensures Droppable(Encode(m)) || (|Encode(m)| > 2 * MAX_READ && Breaks(Encode(m)))
  {
    hide Encode, WellFormed, Droppable, Breaks, FeedOne;
    var e := Encode(m);
    var n := |e| - 1;
    if n < 2 * MAX_READ {
      MessageEnds(m);
      BeginningDropped(m, n);
      NothingStarts([e[n]]);
      OneMoreDropped(e[..n], [e[n]]);
      assert e == e[..n] + [e[n]];
    } else {
      forall p {:trigger e[..p]} | MAX_READ <= p < 2 * MAX_READ ensures Droppable(e[..p]) {
        BeginningDropped(m, p);
      }
      WindowMoves(e, MAX_READ);
    }
  }

  // The replies that fit the buffer.
  function Fitting(ms: seq<Message>): (fs: seq<Message>)
    ensures |fs| <= |ms| && ((forall m <- ms :: WellFormed(m)) ==> (|fs| == |ms| <==> Fit(ms)))
  {
    if ms == [] then []
    else
      var rest := Fitting(ms[1..]);
      assert (forall m <- ms :: WellFormed(m)) ==> forall m <- ms[1..] :: WellFormed(m);
      assert Fit(ms) ==> Fit(ms[1..]);
      if |Encode(ms[0])| <= MAX_READ then [ms[0]] + rest else rest
  }

  lemma {:induction false} BrokenStays(buf: bytes, a: seq<bytes>, b: seq<bytes>)
    requires FeedAll(buf, a).status == Broken
    ensures FeedAll(buf, a + b).status == Broken
    decreases |a|
  {
    hide FeedOne;
    var o := FeedOne(buf, a[0]);
    if o.status != Broken {
      BrokenStays(o.tail, a[1..], b);
    }
    assert (a + b)[1..] == a[1..] + b;
  }

  // Every stream can come in chunks of which exactly the replies that fit are handled, or, with a reply of more
  // than 2 * MAX_READ bytes, in chunks that lead to what is undefined.
  lemma {:induction false} StreamDropped(ms: seq<Message>) returns (chunks: seq<bytes>)
    requires forall m <- ms :: WellFormed(m)
    ensures Small(chunks) && Concat(chunks) == EncodeAll(ms)
    ensures FeedAll([], chunks) == Outcome(EventsOf(Fitting(ms)), [], Waiting)
      || (FeedAll([], chunks).status == Broken && exists m <- ms :: |Encode(m)| > 2 * MAX_READ)
  {
    hide Encode, WellFormed, EventOf, FeedOne;
    chunks := [];
    if ms != [] {
      assert forall m <- ms[1..] :: m in ms;
      var e := Encode(ms[0]);
      var rest := StreamDropped(ms[1..]);
      if |e| <= MAX_READ {
        chunks := [e] + rest;
        assert chunks[1..] == rest;
        OneFed(ms[0]);
        assert ([ms[0]] + Fitting(ms[1..]))[1..] == Fitting(ms[1..]);
      } else {
        LongDropped(ms[0]);
        var first: seq<bytes>;
        if Droppable(e) {
          first :| Small(first) && Concat(first) == e && FeedAll([], first) == Outcome([], [], Waiting);
          FeedTwo([], first, rest);
        } else {
          first :| Small(first) && Concat(first) == e && FeedAll([], first).status == Broken;
          BrokenStays([], first, rest);
        }
        chunks := first + rest;
        ConcatTwo(first, rest);
      }
    }
  }

  lemma EventsLength(ms: seq<Message>)
    ensures |EventsOf(ms)| == |ms|
  {
    if ms != [] { EventsLength(ms[1..]); }
  }

  // So the length of the replies is the exact condition for chunks not to matter: with a longer one some split of
  // the stream handles other replies.
  lemma FitIff(ms: seq<Message>)
    requires forall m <- ms :: WellFormed(m)
    ensures Fit(ms) <==> forall chunks :: Small(chunks) && Concat(chunks) == EncodeAll(ms) ==>
      FeedAll([], chunks) == Outcome(EventsOf(ms), [], Waiting)
  {
    hide Encode, WellFormed, FeedAll, EventsOf, EncodeAll, Concat, Arrived, Pending;
    if Fit(ms) {
      forall chunks | Small(chunks) && Concat(chunks) == EncodeAll(ms)
        ensures FeedAll([], chunks) == Outcome(EventsOf(ms), [], Waiting)
      {
        Fragmentation(ms, chunks);
      }
    } else {
      var chunks := StreamDropped(ms);
      EventsLength(ms);
      EventsLength(Fitting(ms));
    }
  }

  lemma EmptyParses()
    ensures ParseAll([]) == Outcome([], [], Waiting)
  {
  }

  lemma PrefixesSavable(ms: seq<Message>, s: bytes)
    requires Fit(ms) && s <= EncodeAll(ms)
    ensures Savable(s)
  {
    hide ParseAll, Encode, Arrived, Pending;
    var all := EncodeAll(ms);
    StreamParses(ms, s);
    StreamSplits(ms, s);
    StreamClean(ms);
    assert 0 !in s by { assert forall b <- s :: b in all; }
    forall n {:trigger s[..n]} | 0 <= n <= |s|
      ensures |ParseAll(s[..n]).tail| < MAX_READ
    {
      assert s[..n] <= all by { assert s[..n] == all[..n]; }
      StreamParses(ms, s[..n]);
      StreamSplits(ms, s[..n]);
    }
  }

  lemma {:induction false} StreamEnds(ms: seq<Message>)
    ensures Arrived(ms, EncodeAll(ms)) == |ms| && Pending(ms, EncodeAll(ms)) == []
  {
    if ms != [] {
      assert EncodeAll(ms)[|Encode(ms[0])|..] == EncodeAll(ms[1..]);
      StreamEnds(ms[1..]);
    }
  }

  lemma {:induction false} StreamClean(ms: seq<Message>)
    requires forall m <- ms :: WellFormed(m)
    ensures 0 !in EncodeAll(ms)
  {
    if ms != [] {
      MessageClean(ms[0]);
      StreamClean(ms[1..]);
    }
  }

  lemma MessageClean(m: Message)
    requires WellFormed(m)
    ensures 0 !in Encode(m)
  {
    match m
    case Hash(pairs) =>
      PairsClean(pairs);
      assert 0 !in Decimal(2 * |pairs|);
    case Notice(kind, text) =>
  }

  lemma {:induction false} PairsClean(pairs: seq<(bytes, bytes)>)
    requires forall p <- pairs :: Storable(p)
    ensures 0 !in EncodePairs(pairs)
  {
    if pairs != [] {
      assert 0 !in Decimal(|pairs[0].0|) && 0 !in Decimal(|pairs[0].1|);
      assert pairs[0] in pairs && Storable(pairs[0]);
      assert 0 !in EncodeItem(pairs[0].0) && 0 !in EncodeItem(pairs[0].1);
      PairsClean(pairs[1..]);
    }
  }
}
