/** The relay of a master's replication stream to the slave. */
module Relay {
  import opened Bytes
  import opened Powers
  import R = Reply

  const MAX_READ := R.MAX_READ

  datatype Phase = Start | SyncStart | Sync | Running

  // What the next system call does: moves up to n bytes, none for now, or fails.
  datatype Io = Moves(n: nat) | Again | Fails

  // ---------------------------------------------------------------- the size in the header

  function Digits(s: bytes): (d: bytes)
    ensures |d| <= |s| && d == s[..|d|] && (forall i :: 0 <= i < |d| ==> IsDigit(d[i]))
    ensures |d| < |s| ==> !IsDigit(s[|d|])
  {
    if s == [] || !IsDigit(s[0]) then [] else [s[0]] + Digits(s[1..])
  }

  const TWO63: int := 0x8000_0000_0000_0000

  // strtoull in base ten: white space, a sign, digits; too large a number becomes the largest.
  function StrToULL(s: bytes): int
    decreases |s|
  {
    if s == [] then 0
    else if IsSpace(s[0]) then StrToULL(s[1..])
    else
      var signed := s[0] == MINUS || s[0] == PLUS;
      var v := Value(Digits(if signed then s[1..] else s));
      if v >= TWO64 then TWO64 - 1
      else if s[0] == MINUS then (TWO64 - v) % TWO64
      else v
  }

  // The unsigned result kept in a signed variable.
  function Signed64(v: int): int {
    if v >= TWO63 then v - TWO64 else v
  }

  // It is the number modulo 2^64 that a signed variable holds.
  lemma SignedIs(v: nat)
    requires v < TWO64
    ensures -TWO63 <= Signed64(v) < TWO63 && (Signed64(v) - v) % TWO64 == 0 && TWO63 + TWO63 == TWO64
  {
  }

  // A sign and digits, up to what is not a digit, read as the number they denote.
  lemma NumberReads(sign: bytes, digits: bytes, t: bytes)
    requires (sign == [] || sign == [MINUS] || sign == [PLUS])
    requires digits != [] && AllDigits(digits) && (t == [] || !IsDigit(t[0]))
    ensures var v := Value(digits);
      && (v >= TWO64 ==> StrToULL(sign + (digits + t)) == 0xffff_ffff_ffff_ffff)
      && (v < TWO64 && (sign != [MINUS] || v == 0) ==> StrToULL(sign + (digits + t)) == v)
      && (0 < v < TWO64 && sign == [MINUS] ==> StrToULL(sign + (digits + t)) == TWO64 - v)
  {
    hide Value, Digits;
    var s := digits + t;
    DigitsOf(digits, t);
    DigitsNotNegative(digits);
    assert s[0] == digits[0] && IsDigit(s[0]);
    if sign == [] {
      assert sign + s == s;
    } else {
      assert (sign + s)[0] == sign[0] && (sign + s)[1..] == s;
    }
  }

  // White space before it does not matter, and without digits the number is zero.
  lemma BlankReads(blank: byte, s: bytes)
    requires IsSpace(blank)
    ensures StrToULL([blank] + s) == StrToULL(s)
    ensures StrToULL([]) == 0
  {
    assert ([blank] + s)[1..] == s;
  }

  lemma {:induction false} DigitsNotNegative(d: bytes)
    requires AllDigits(d)
    ensures Value(d) >= 0
  {
    if d != [] { DigitsNotNegative(d[..|d| - 1]); }
  }

  // The header without the empty lines before it and without its line feed.
  function Line(header: bytes): bytes
    decreases |header|
  {
    if header == [] then []
    else if header[0] == LF then Line(header[1..])
    else header[..|header| - 1]
  }

  function BulkSize(header: bytes): int {
    var line := Line(header);
    if line == [] then 0 else Signed64(StrToULL(line[1..]))
  }

  // A complete header: a line that is not empty, after any number of empty ones.
  predicate IsHeader(h: bytes) {
    Line(h) != [] && LF !in Line(h) && h[|h| - 1] == LF
  }

  lemma {:induction false} DigitsOf(d: bytes, t: bytes)
    requires forall i :: 0 <= i < |d| ==> IsDigit(d[i])
    requires t == [] || !IsDigit(t[0])
    ensures Digits(d + t) == d
  {
    if d == [] {
      assert d + t == t;
    } else {
      assert (d + t)[1..] == d[1..] + t;
      DigitsOf(d[1..], t);
    }
  }

  // The size a master announces is the size the relay counts down, below 2^63.
  lemma {:induction false} AnnouncedSize(n: nat, blank: nat)
    requires n < TWO63
    ensures BulkSize(seq(blank, _ => LF) + [DOLLAR] + Decimal(n) + CRLF) == n
    decreases blank
  {
    var h := seq(blank, _ => LF) + [DOLLAR] + Decimal(n) + CRLF;
    if blank > 0 {
      assert h[1..] == seq(blank - 1, _ => LF) + [DOLLAR] + Decimal(n) + CRLF;
      AnnouncedSize(n, blank - 1);
    } else {
      assert h[..|h| - 1][1..] == Decimal(n) + [CR];
      DigitsOf(Decimal(n), [CR]);
      DecimalValue(n);
    }
  }

  // ---------------------------------------------------------------- what has been read

  // A payload chunk, and whether a slave was connected: only then it is subtracted from the size still to come.
  datatype Chunk = Chunk(bytes_: bytes, connected: bool)

  function Joined(cs: seq<Chunk>): bytes {
    if cs == [] then [] else Joined(cs[..|cs| - 1]) + cs[|cs| - 1].bytes_
  }

  // How many bytes have been subtracted, and how many have not.
  function Counted(cs: seq<Chunk>): nat {
    if cs == [] then 0 else Counted(cs[..|cs| - 1]) + if cs[|cs| - 1].connected then |cs[|cs| - 1].bytes_| else 0
  }

  function Missed(cs: seq<Chunk>): nat {
    if cs == [] then 0 else Missed(cs[..|cs| - 1]) + if cs[|cs| - 1].connected then 0 else |cs[|cs| - 1].bytes_|
  }

  lemma {:induction false} JoinedLength(cs: seq<Chunk>)
    ensures |Joined(cs)| == Counted(cs) + Missed(cs)
    ensures Whole(cs) ==> (Missed(cs) == 0 <==> forall c <- cs :: c.connected)
  {
    if cs != [] {
      var init := cs[..|cs| - 1];
      JoinedLength(init);
      assert forall c :: c in cs <==> c in init || c == cs[|cs| - 1];
    }
  }

  predicate Whole(cs: seq<Chunk>) {
    forall c <- cs :: c.bytes_ != []
  }

  // Only chunks read with a slave connected have been added.
  predicate Grown(was: seq<Chunk>, now: seq<Chunk>) {
    was <= now && forall c <- now[|was|..] :: c.connected
  }

  lemma ChunkAdded(start: seq<Chunk>, was: seq<Chunk>, c: Chunk)
    requires Grown(start, was) && Whole(was) && c.connected && c.bytes_ != []
    ensures Grown(start, was + [c]) && Whole(was + [c]) && Counted(was + [c]) == Counted(was) + |c.bytes_|
  {
    assert (was + [c])[|start|..] == was[|start|..] + [c] && (was + [c])[..|was|] == was;
  }

  // The bytes read from the master: up to the start of the sync, those read after it while no slave was
  // connected, the header as the relay parses it, the payload, the commands.
  datatype Log = Log(greeting: bytes, lost: bytes, header: bytes, payload: seq<Chunk>, commands: bytes)

  const NOTHING := Log([], [], [], [], [])

  datatype Part = Greeting | Lost | Header | Payload(connected: bool)

  function Before(l: Log): bytes {
    l.greeting + l.lost
  }

  function Seen(l: Log): bytes {
    Before(l) + l.header + Joined(l.payload) + l.commands
  }

  // Where the next bytes of this part go behind all that has been read.
  predicate Fits(l: Log, part: Part) {
    && l.commands == []
    && (!part.Payload? ==> l.payload == [])
    && (part.Greeting? || part.Lost? ==> l.header == [])
    && (part.Greeting? ==> l.lost == [])
  }

  // The log with b, which is not empty, read in one piece.
  function Add(l: Log, part: Part, b: bytes): (m: Log)
    requires Fits(l, part)
    ensures Seen(m) == Seen(l) + b
  {
    match part
    case Greeting => l.(greeting := l.greeting + b)
    case Lost => l.(lost := l.lost + b)
    case Header => l.(header := l.header + b)
    case Payload(connected) => l.(payload := l.payload + [Chunk(b, connected)])
  }

  function AddCommands(l: Log, b: bytes): (m: Log)
    ensures Seen(m) == Seen(l) + b
  {
    l.(commands := l.commands + b)
  }

  // Some bytes have been read in one piece.
  ghost predicate Read(l: Log, part: Part, m: Log)
    requires Fits(l, part)
  {
    exists b :: b != [] && m == Add(l, part, b)
  }

  lemma ReadKeeps(l: Log, part: Part, m: Log)
    requires Fits(l, part) && Read(l, part, m)
    ensures !part.Greeting? ==> m.greeting == l.greeting
    ensures part.Header? || part.Payload? ==> m.lost == l.lost
    ensures part.Payload? ==> m == l.(payload := m.payload)
  {
  }

  predicate InShape(l: Log, state: Phase) {
    match state
    case Start => l.lost == l.header == l.commands == [] && l.payload == []
    case SyncStart => l.header == l.commands == [] && l.payload == []
    case Sync => l.commands == []
    case Running => true
  }

  // Before the scanner sees a byte, the header parsed has announced a size and that many bytes have been counted.
  predicate InPhase(l: Log, state: Phase, bulkSize: int) {
    && InShape(l, state)
    && Whole(l.payload)
    && (state == Sync ==> IsHeader(l.header) && Counted(l.payload) + bulkSize == BulkSize(l.header))
    && (state == Running ==> IsHeader(l.header) && Counted(l.payload) == BulkSize(l.header))
  }

  lemma GrownNot(cs: seq<Chunk>)
    ensures Grown(cs, cs)
  {
  }

  // A chunk that is not counted leaves the count alone.
  lemma OneMore(l: Log, m: Log)
    requires l.commands == [] && Read(l, Payload(false), m) && Whole(l.payload)
    ensures m.commands == [] && m.header == l.header && Before(m) == Before(l)
    ensures Whole(m.payload) && Counted(m.payload) == Counted(l.payload)
  {
    var b :| b != [] && m == Add(l, Payload(false), b);
    assert m.payload[..|l.payload|] == l.payload;
  }

  // The payload has exactly the size that was parsed if and only if a slave was connected whenever a chunk
  // of it was read.
  lemma PayloadExact(l: Log, bulkSize: int)
    requires InPhase(l, Running, bulkSize)
    ensures |Joined(l.payload)| == BulkSize(l.header) <==> forall c <- l.payload :: c.connected
  {
    JoinedLength(l.payload);
  }

  // One chunk read while no slave was connected: the commands start a byte too late.
  lemma OneByteTooMany()
    ensures var l := Log([], [], [DOLLAR, ZERO + 1, CR, LF], [Chunk([97], false), Chunk([98], true)], []);
      InPhase(l, Running, 0) && |Joined(l.payload)| == 2 && BulkSize(l.header) == 1
  {
    OneAnnounced();
    var cs := [Chunk([97], false), Chunk([98], true)];
    assert cs[..1] == [Chunk([97], false)] && cs[..1][..0] == [];
    assert Counted(cs[..1]) == 0 && Joined(cs[..1]) == [] + [97];
  }

  const CONTINUE: bytes := [43, 67, 79, 78, 84, 73, 78, 85, 69]               // "+CONTINUE"
  const FULLRESYNC: bytes := [43, 70, 85, 76, 76, 82, 69, 83, 89, 78, 67]     // "+FULLRESYNC"
  const SYNC: bytes := [83, 89, 78, 67, CR, LF]                               // "SYNC\r\n"

  // Whether a chunk of n bytes answers a request for a sync; the buffer may hold older bytes after it.
  predicate StartsSync(buffer: bytes, n: nat) {
    9 < n < 100 && (CONTINUE <= buffer || FULLRESYNC <= buffer)
  }

  // A chunk that is long enough tells by its own bytes whether it starts a sync.
  lemma StartsIff(buffer: bytes, n: nat)
    requires |FULLRESYNC| <= n <= |buffer|
    ensures StartsSync(buffer, n) <==> n < 100 && (CONTINUE <= buffer[..n] || FULLRESYNC <= buffer[..n])
  {
    assert buffer[..n][..|CONTINUE|] == buffer[..|CONTINUE|];
    assert buffer[..n][..|FULLRESYNC|] == buffer[..|FULLRESYNC|];
  }

  // "+CONTINUE" and "+FULLRESYNC" start a sync with a line feed behind them, "+CONTINUE" alone and "+OK" do not.
  lemma AnswersStart()
    ensures StartsSync([43, 67, 79, 78, 84, 73, 78, 85, 69, 10], 10)
    ensures StartsSync([43, 70, 85, 76, 76, 82, 69, 83, 89, 78, 67, 10], 12)
    ensures !StartsSync([43, 67, 79, 78, 84, 73, 78, 85, 69], 9)
    ensures forall n :: !StartsSync([43, 79, 75, 10], n)
  {
    var a: bytes, b: bytes := [43, 67, 79, 78, 84, 73, 78, 85, 69, 10], [43, 70, 85, 76, 76, 82, 69, 83, 89, 78, 67, 10];
    assert a[..9] == CONTINUE && b[..11] == FULLRESYNC;
  }

  // The least of the three.
  function Moved(k: nat, size: nat, there: nat): (n: nat)
    ensures n <= size && n <= there && n <= k && (n == size || n == there || n == k)
  {
    if k <= size && k <= there then k else if size <= there then size else there
  }

  // ---------------------------------------------------------------- what the system calls to come decide

  function Next(script: seq<Io>): Io {
    if script == [] then Fails else script[0]
  }

  function Rest(script: seq<Io>): (rest: seq<Io>)
    ensures script != [] ==> |rest| < |script|
  {
    if script == [] then [] else script[1..]
  }

  // What a read of up to size bytes returns when there are that many to come.
  function Reads(script: seq<Io>, size: nat, there: nat): (n: int)
    ensures n <= size && n <= there
  {
    match Next(script)
    case Fails => -1
    case Again => 0
    case Moves(k) => Moved(k, size, there)
  }

  // The calls take n bytes before one fails.
  predicate Gets(script: seq<Io>, n: nat)
    decreases |script|
  {
    n == 0 || (script != [] && !script[0].Fails? && Gets(script[1..], n - Taking(script[0], n)))
  }

  // How much of n bytes a write takes that does not fail.
  function Taking(io: Io, n: nat): (k: nat)
    ensures k <= n
  {
    match io
    case Moves(k) => if k < n then k else n
    case _ => 0
  }

  // The calls that come after those that take n bytes, or after the one that fails.
  function Left(script: seq<Io>, n: nat): (rest: seq<Io>)
    ensures |rest| <= |script|
    decreases |script|
  {
    if n == 0 || script == [] then script
    else if script[0].Fails? then script[1..]
    else Left(script[1..], n - Taking(script[0], n))
  }

  // What reading up to size bytes and forwarding them comes to, the calls after it and the bytes still to come.
  function Passing(script: seq<Io>, size: nat, there: nat, client: bool): (p: (int, seq<Io>, nat))
    ensures p.0 <= size && p.0 <= there && (p.0 >= 0 ==> |p.1| < |script| && p.2 == there - p.0)
  {
    var (r, rest) := (Reads(script, size, there), Rest(script));
    if r <= 0 then (r, rest, there)
    else if client then (if Gets(rest, r) then r else -1, Left(rest, r), there - r)
    else (-1, rest, there - r)
  }

  // With a slave connected and p bytes of a header line read: how reading it ends.  None stands for a whole header
  // that is passed on; the line may be too long for the buffer, or a call fails and everything is closed.
  function HeaderEnd(script: seq<Io>, incoming: bytes, p: nat): Option<Fate>
    decreases |script|, 0
  {
    if p >= MAX_READ then Some(Breaks)
    else
      var (n, rest, _) := Passing(script, 1, |incoming|, true);
      if n < 0 then Some(Runs)
      else if n == 0 then HeaderEnd(rest, incoming, p)
      else LineEnd(incoming, rest, p)
  }

  // The same once its next byte has been passed on.
  function LineEnd(incoming: bytes, rest: seq<Io>, p: nat): Option<Fate>
    requires incoming != []
    decreases |rest|, 1
  {
    if incoming[0] == LF && p != 0 then None
    else HeaderEnd(rest, incoming[1..], if incoming[0] == LF then p else p + 1)
  }

  // With a slave connected, a payload of bulk bytes arrives whole and is passed on.
  predicate PayloadFlows(script: seq<Io>, bulk: nat, there: nat)
    decreases |script|
  {
    bulk == 0 ||
      var (n, rest, more) := Passing(script, AtOnce(bulk), there, true);
      n >= 0 && PayloadFlows(rest, bulk - n, more)
  }

  function AtOnce(bulk: nat): nat {
    if bulk > MAX_READ then MAX_READ else bulk
  }

  // A chunk outside a sync is read, scanned by a running relay, and passed on.
  predicate ChunkFlows(script: seq<Io>, there: nat, state: Phase, client: bool) {
    var (n, rest) := (Reads(script, MAX_READ, there), Rest(script));
    var after := if state == Running then Rest(rest) else rest;
    n == 0 || (n > 0 && (state == Running ==> !Next(rest).Fails?) && (client ==> Gets(after, n)))
  }

  // Something is read before a call fails.
  predicate Arrives(script: seq<Io>, there: nat)
    decreases |script|
  {
    var n := Reads(script, 1, there);
    n > 0 || (n == 0 && Arrives(Rest(script), there))
  }

  lemma PayloadStep(script: seq<Io>, bulk: nat, there: nat)
    ensures bulk == 0 ==> PayloadFlows(script, bulk, there)
    ensures bulk > 0 ==>
      var (n, rest, more) := Passing(script, AtOnce(bulk), there, true);
      PayloadFlows(script, bulk, there) <==> n >= 0 && PayloadFlows(rest, bulk - n, more)
  {
  }

  lemma HeaderStep(script: seq<Io>, incoming: bytes, p: nat)
    ensures p >= MAX_READ ==> HeaderEnd(script, incoming, p) == Some(Breaks)
    ensures p < MAX_READ ==> var (n, rest, _) := Passing(script, 1, |incoming|, true);
      && (n < 0 ==> HeaderEnd(script, incoming, p) == Some(Runs))
      && (n == 0 ==> HeaderEnd(script, incoming, p) == HeaderEnd(rest, incoming, p))
      && (n > 0 && incoming[0] == LF && p != 0 ==> HeaderEnd(script, incoming, p) == None)
      && (n > 0 && incoming[0] == LF && p == 0 ==> HeaderEnd(script, incoming, p) == HeaderEnd(rest, incoming[1..], p))
      && (n > 0 && incoming[0] != LF ==> HeaderEnd(script, incoming, p) == HeaderEnd(rest, incoming[1..], p + 1))
  {
  }

  // Without a slave the first bytes that are read end it.
  lemma LostStep(script: seq<Io>, size: nat, there: nat)
    requires size > 0
    ensures var (n, rest, more) := Passing(script, size, there, false);
      && n <= 0
      && (n == 0 ==> (Arrives(script, there) <==> Arrives(rest, more)))
      && (n < 0 ==> (Arrives(script, there) <==> Reads(script, size, there) > 0))
  {
    ReadsAny(script, size, there);
  }

  // Whether a read finds something does not depend on how much is asked for.
  lemma ReadsAny(script: seq<Io>, size: nat, there: nat)
    requires size > 0
    ensures var (n, m) := (Reads(script, 1, there), Reads(script, size, there));
      (n > 0 <==> m > 0) && (n == 0 <==> m == 0) && n >= -1 && m >= -1
  {
  }

  lemma SliceOfSlice(s: bytes, at: nat, n: nat, all: nat, wr: nat)
    requires at + n <= |s| && all + wr <= n
    ensures s[at + all..at + all + wr] == s[at..at + n][all..all + wr]
  {
    var part := s[at..at + n][all..all + wr];
    assert |part| == wr && forall k :: 0 <= k < wr ==> part[k] == s[at + all + k];
  }

  class Relay {
    var state: Phase
    var bulkSize: int
    var master: bool
    var client: bool
    const rdata: array<byte>

    // The world outside: what each system call will do, the bytes the master will still send,
    // the bytes the connected slave has got and the bytes the command scanner has got.
    var script: seq<Io>
    var incoming: bytes
    var delivered: bytes
    var scanned: bytes
    var upstream: bytes         // what the master got of the slave's requests

    ghost var stream: bytes     // all the master sends on this connection
    ghost var log: Log
    ghost var mark: nat         // how much had been read when the slave connected
    ghost var earlier: bytes    // what had been scanned before the current sync

    // b has been read and is not in the log yet.
    ghost predicate Linked(b: bytes)
      reads this
    {
      && rdata.Length == MAX_READ
      && stream == Seen(log) + b + incoming && mark <= |Seen(log)|
      && scanned == earlier + log.commands
      && (!master ==> state == Start && !client)
    }

    // The slave has got what was read since it connected.
    ghost predicate UpToDate()
      reads `log, `mark, `delivered
    {
      mark <= |Seen(log)| && delivered == Seen(log)[mark..]
    }

    // Delivery is in order and complete, and every byte passes in its phase.
    ghost predicate Valid()
      reads this
    {
      && Linked([])
      && delivered <= Seen(log)[mark..]
      && (client ==> UpToDate())
      && (master ==> InPhase(log, state, bulkSize))
    }

    constructor (script: seq<Io>)
      ensures Valid() && fresh(rdata) && !master && !client && state == Start && this.script == script
    {
      rdata := new byte[MAX_READ];
      state, bulkSize, master, client := Start, 0, false, false;
      this.script, incoming, delivered, scanned, upstream := script, [], [], [], [];
      stream, log, mark, earlier := [], NOTHING, 0, [];
    }

    method Connect(bytes_: bytes)
      requires Valid() && !master
      modifies this
      ensures Valid() && master && !client && state == Start && incoming == stream == bytes_ && log == NOTHING
      ensures script == old(script) && delivered == upstream == [] && scanned == old(scanned)
    {
      hide Seen;
      NothingSeen();
      master := true;
      incoming := bytes_;
      delivered := [];
      stream, log, mark, earlier := bytes_, NOTHING, 0, scanned;
      upstream := [];
    }

    // A new slave replaces the old one; the phase stays.  When the accept fails there is no slave; when the
    // loop does not take the new descriptor, everything is closed.
    method Accept(accepted: bool, registered: bool)
      requires Valid() && master
      modifies this`client, this`delivered, this`mark, this`master, this`state
      ensures Valid() && delivered == [] && mark == |Seen(log)| && client == (accepted && registered)
      ensures master == (!accepted || registered)
      ensures master ==> state == old(state)
    {
      client := accepted;
      delivered := [];
      mark := |Seen(log)|;
      if accepted && !registered {
        CloseFd();
      }
    }

    method CloseFd()
      modifies this`master, this`client, this`state
      ensures !master && !client && state == Start
    {
      master, client, state := false, false, Start;
    }

    method NextIo() returns (io: Io)
      modifies this`script
      ensures io == Next(old(script)) && script == Rest(old(script))
    {
      if script == [] {
        return Fails;
      }
      io := script[0];
      script := script[1..];
    }

    // Reads up to size bytes from the master to position at.
    method ReadData(at: nat, size: nat) returns (n: int)
      requires Linked([]) && master && 0 < size && at + size <= rdata.Length
      modifies this`script, this`master, this`client, this`state, this`incoming, rdata
      ensures -1 <= n <= size && Linked(if n > 0 then rdata[at..at + n] else [])
      ensures n >= 0 ==> master && client == old(client) && state == old(state)
      ensures n < 0 ==> !master && !client && state == Start
      ensures rdata[..at] == old(rdata[..at])
      ensures n >= 0 ==> |script| < |old(script)|
      ensures n > 0 ==> rdata[at..at + n] == old(incoming)[..n]
      ensures n == Reads(old(script), size, old(|incoming|)) && script == Rest(old(script))
      ensures incoming == if n > 0 then old(incoming)[n..] else old(incoming)
    {
      hide Seen, InShape;
      ghost var was := incoming;
      var io := NextIo();
      match io
      case Fails =>
        CloseFd();
        return -1;
      case Again =>
        return 0;
      case Moves(k) =>
        n := Moved(k, size, |incoming|);
        Fill(at, incoming[..n]);
        incoming := incoming[n..];
        Taken(Seen(log), was, n);
    }

    method Fill(at: nat, b: bytes)
      requires at + |b| <= rdata.Length
      modifies rdata
      ensures rdata[at..at + |b|] == b && rdata[..at] == old(rdata[..at])
    {
      forall i | 0 <= i < |b| {
        rdata[at + i] := b[i];
      }
    }

    // Writes n bytes from position at to the slave: they all go out exactly if a slave is connected and the calls
    // to come take them before one fails.
    method WriteData(at: nat, n: nat) returns (ok: bool)
      requires at + n <= rdata.Length
      modifies this`script, this`master, this`client, this`state, this`delivered
      ensures ok ==> old(client) && client && master == old(master) && state == old(state)
      ensures ok ==> delivered == old(delivered) + rdata[at..at + n]
      ensures !ok && old(client) ==> !master && !client && state == Start
      ensures !ok && !old(client) ==> !client && master == old(master) && state == old(state) && delivered == old(delivered)
      ensures !ok ==> delivered <= old(delivered) + rdata[at..at + n]
      ensures ok <==> old(client) && Gets(old(script), n)
      ensures script == if old(client) then Left(old(script), n) else old(script)
    {
      ghost var (start, b) := (delivered, rdata[at..at + n]);
      MorePrefix(start, b, 0, 0);
      if !client {
        return false;
      }
      var all := 0;
      while all < n
        invariant 0 <= all <= n && b == rdata[at..at + n]
        invariant Gets(old(script), n) == Gets(script, n - all) && Left(old(script), n) == Left(script, n - all)
        invariant client && master == old(master) && state == old(state)
        invariant delivered == start + b[..all] && delivered <= start + b
        decreases |script|
      {
        var io := NextIo();
        match io
        case Fails =>
          CloseFd();
          return false;
        case Again =>
        case Moves(k) =>
          var wr := if k < n - all then k else n - all;
          SliceOfSlice(rdata[..], at, n, all, wr);
          MorePrefix(start, b, all, wr);
          delivered := delivered + rdata[at + all..at + all + wr];
          all := all + wr;
      }
      assert b[..all] == b;
      return true;
    }

    // The command scanner gets the first n bytes; its queries may fail and close everything.
    method ProcessInputBuffer(n: nat)
      requires n <= rdata.Length && Linked(rdata[..n]) && master && state == Running
      modifies this`script, this`master, this`client, this`state, this`scanned, this`log
      ensures Linked([]) && scanned == old(scanned) + rdata[..n] && log == AddCommands(old(log), rdata[..n])
      ensures master <==> !Next(old(script)).Fails?
      ensures master ==> client == old(client) && state == old(state)
      ensures !master ==> !client && state == Start
      ensures script == Rest(old(script))
    {
      hide Seen;
      scanned := scanned + rdata[..n];
      log := AddCommands(log, rdata[..n]);
      var io := NextIo();
      if io == Fails {
        CloseFd();
      }
    }

    // Puts what was read into the log and forwards it.
    method Forward(at: nat, n: nat, ghost part: Part) returns (ok: bool)
      requires at + n <= rdata.Length && Linked(rdata[at..at + n]) && master && 0 < n
      requires Fits(log, part)
      requires delivered <= Seen(log)[mark..] && (client ==> UpToDate())
      modifies this`script, this`master, this`client, this`state, this`delivered, this`log
      ensures Linked([]) && log == Add(old(log), part, rdata[at..at + n])
      ensures delivered <= Seen(log)[mark..] && (client ==> UpToDate())
      ensures ok ==> client && old(client) && master && state == old(state)
      ensures !ok && old(client) ==> !master && state == Start
      ensures !ok && !old(client) ==> master && state == old(state)
      ensures !ok ==> !client
      ensures ok <==> old(client) && Gets(old(script), n)
      ensures script == if old(client) then Left(old(script), n) else old(script)
    {
      hide Seen;
      ghost var (b, seen) := (rdata[at..at + n], Seen(log));
      log := Add(log, part, b);
      SeenMore(seen, b, mark);
      ok := WriteData(at, n);
    }

    // Between two bytes of a sync.
    ghost predicate Flowing()
      reads this
    {
      && Linked([]) && master && log.commands == []
      && (state == SyncStart ==> log.payload == [])
      && delivered <= Seen(log)[mark..] && (client ==> UpToDate())
    }

    // Reads up to size bytes and forwards them; stops when that fails or nobody is connected.
    method Pass(at: nat, size: nat, ghost part: Part) returns (n: int)
      requires Flowing() && 0 < size && at + size <= rdata.Length
      requires Fits(log, part) && ((!part.Greeting? && !part.Payload? && state == SyncStart) || (part.Payload? && state == Sync))
      modifies this`script, this`master, this`client, this`state, this`incoming, this`delivered, this`log, rdata
      ensures n <= size
      ensures n >= 0 ==> Flowing() && client == old(client) && state == old(state)
      ensures n >= 0 ==> |script| < |old(script)| && rdata[..at] == old(rdata[..at])
      ensures n == 0 ==> log == old(log)
      ensures n > 0 ==> client && log == Add(old(log), part, rdata[at..at + n])
      ensures n < 0 ==> !client && Linked([]) && delivered <= Seen(log)[mark..]
      ensures n < 0 && old(client) ==> !master
      ensures n < 0 ==> log == old(log) || Read(old(log), part, log)
      ensures n < 0 && master ==> state == old(state) && Read(old(log), part, log)
      // What the calls to come decide.
      ensures (n, script, |incoming|) == Passing(old(script), size, old(|incoming|), old(client))
      ensures n >= 0 ==> incoming == old(incoming)[n..] && rdata[at..at + n] == old(incoming)[..n]
      ensures n < 0 ==> (master <==> !old(client) && Reads(old(script), size, old(|incoming|)) > 0)
    {
      hide Seen, UpToDate, Gets, Left, Reads, Next;
      n := ReadData(at, size);
      if n > 0 {
        var ok := Forward(at, n, part);
        if !ok {
          assert rdata[at..at + n] != [];
          n := -1;
        }
      }
    }

    // Waits for the header line of a sync, byte by byte: its length, or none when something fails.  A byte
    // that is read while no slave is connected is lost to the header.
    method WaitForLine() returns (p: nat, end: Option<Fate>)
      requires Valid() && master && state == SyncStart
      modifies this`script, this`master, this`client, this`state, this`incoming, this`delivered, this`log, rdata
      ensures end == Some(Runs) ==> Valid() && !client
      ensures end == None || end == Some(Runs) || end == Some(Breaks)
      ensures end == None ==> old(client)
      ensures end == None ==> Flowing() && client && state == SyncStart && log.payload == [] && 0 < p <= MAX_READ
      ensures end == None ==> IsHeader(log.header) && Line(log.header) == rdata[..p]
      ensures log.greeting == old(log.greeting) && (old(client) ==> log.lost == old(log.lost))
      ensures end == Some(Runs) && master ==> !old(client) && state == SyncStart && Read(old(log), Lost, log)
      ensures old(client) ==> end == HeaderEnd(old(script), old(incoming), 0) && (end == Some(Runs) ==> !master)
      ensures !old(client) ==> end == Some(Runs) && (master <==> Arrives(old(script), old(|incoming|)))
    {
      hide Line, IsHeader, Seen, UpToDate, Reads, Passing, HeaderEnd, LineEnd, Arrives;
      p, end := 0, None;
      ghost var blank: bytes := [];
      while true
        invariant Flowing() && state == SyncStart && 0 <= p <= MAX_READ
        invariant client == old(client) && log.greeting == old(log.greeting) && log.lost == old(log.lost)
        invariant client ==> HeaderEnd(old(script), old(incoming), 0) == HeaderEnd(script, incoming, p)
        invariant !client ==> log == old(log) && p == 0 && Arrives(old(script), old(|incoming|)) == Arrives(script, |incoming|)
        invariant log.header == blank + rdata[..p] && (forall i :: 0 <= i < |blank| ==> blank[i] == LF) && LF !in rdata[..p]
        decreases |script|
      {
        if client { HeaderStep(script, incoming, p); } else { LostStep(script, 1, |incoming|); }
        if p == MAX_READ {
          end := Some(Breaks);
          return;
        }
        ghost var was := log;
        var n := Pass(p, 1, if client then Header else Lost);
        if n < 0 {
          if log != was { ReadKeeps(was, if old(client) then Header else Lost, log); }
          end := Some(Runs);
          return;
        }
        if n == 0 {
          continue;
        }
        if rdata[p] == LF && p != 0 {
          break;
        }
        if rdata[p] != LF {
          p := p + 1;
        } else {
          blank := blank + [LF];
        }
      }
      assert log.header == blank + rdata[..p] + [LF];
      HeaderIs(blank, rdata[..p]);
    }

    // The start of a sync: the size of the payload comes from the header line.
    method ReadHeader() returns (fate: Fate)
      requires Valid() && master && state == SyncStart
      modifies this, rdata
      ensures stream == old(stream) && earlier == old(earlier)
      ensures fate == Runs ==> Valid()
      ensures fate == Runs && master ==> client == old(client)
      ensures fate == Runs && client ==> state == Sync && log.lost == old(log.lost) && log.payload == []
      ensures fate == Runs && master && !client ==> state == SyncStart && Read(old(log), Lost, log)
      ensures fate == Exits ==> IsHeader(log.header) && Line(log.header)[0] == MINUS
      ensures log.greeting == old(log.greeting)
      ensures old(client) && HeaderEnd(old(script), old(incoming), 0) == None ==>
        && Line(log.header) != [] && (fate == if Line(log.header)[0] == MINUS then Exits else Runs)
        && master && client && bulkSize == if fate == Exits then old(bulkSize) else BulkSize(log.header)
      ensures old(client) && HeaderEnd(old(script), old(incoming), 0) != None ==>
        Some(fate) == HeaderEnd(old(script), old(incoming), 0) && (fate == Runs ==> !master)
      ensures !old(client) ==> fate == Runs && (master <==> Arrives(old(script), old(|incoming|)))
    {
      hide HeaderEnd, Arrives;
      hide Line, IsHeader, Signed64, StrToULL, Seen, UpToDate;
      var p, end := WaitForLine();
      if end != None {
        return end.value;
      }
      if rdata[0] == MINUS {
        return Exits;
      }
      assert rdata[1..p] == rdata[..p][1..];
      bulkSize := Signed64(StrToULL(rdata[1..p]));
      state := Sync;
      return Runs;
    }

    method SomeAtOnce(bulk: int) returns (size: nat)
      requires bulk > 0
      ensures size == AtOnce(bulk) && 0 < size <= MAX_READ && size <= bulk
    {
      size := if bulk > MAX_READ then MAX_READ else bulk;
    }

    // One chunk of the payload.
    method ReadSome(ghost start: seq<Chunk>) returns (n: int)
      requires Flowing() && state == Sync && bulkSize > 0 && Whole(log.payload) && Grown(start, log.payload)
      modifies this`bulkSize, this`script, this`master, this`client, this`state, this`incoming, this`delivered, this`log, rdata
      ensures n <= old(bulkSize) && log == old(log).(payload := log.payload)
      ensures n >= 0 ==> Flowing() && state == Sync && client == old(client) && |script| < |old(script)|
      ensures n >= 0 ==> bulkSize == old(bulkSize) - n && Whole(log.payload) && Grown(start, log.payload)
      ensures n >= 0 ==> Counted(log.payload) == Counted(old(log.payload)) + n
      ensures n >= 0 && !client ==> n == 0 && log == old(log)
      ensures n >= 0 ==> if client
        then PayloadFlows(old(script), old(bulkSize), old(|incoming|)) == PayloadFlows(script, bulkSize, |incoming|)
        else Arrives(old(script), old(|incoming|)) == Arrives(script, |incoming|)
      ensures n < 0 ==> Linked([]) && delivered <= Seen(log)[mark..] && !client && bulkSize == old(bulkSize)
      ensures n < 0 && old(client) ==> !master && !PayloadFlows(old(script), old(bulkSize), old(|incoming|))
      ensures n < 0 && !old(client) ==> (master <==> Arrives(old(script), old(|incoming|)))
      ensures n < 0 && master ==> state == Sync && Read(old(log), Payload(false), log)
    {
      hide IsHeader, BulkSize, Seen, UpToDate, Grown, Whole, Counted, Reads, Passing, Arrives, PayloadFlows, AtOnce, Read;
      ghost var was := log;
      var size := SomeAtOnce(bulkSize);
      if client { PayloadStep(script, bulkSize, |incoming|); } else { LostStep(script, size, |incoming|); }
      n := Pass(0, size, Payload(client));
      if n < 0 {
        if log != was { ReadKeeps(was, Payload(old(client)), log); }
        return;
      }
      if n > 0 { ChunkAdded(start, was.payload, Chunk(rdata[0..0 + n], true)); }
      bulkSize := bulkSize - n;
    }

    // Passes the payload on; a negative size asks the system for more than the buffer holds.  A chunk that
    // is read while no slave is connected is lost: it is not subtracted from the size.
    method ReadPayload() returns (fate: Fate)
      requires Valid() && master && state == Sync
      modifies this, rdata
      ensures stream == old(stream) && earlier == old(earlier)
      ensures fate == Runs ==> Valid()
      ensures fate == if old(bulkSize) < 0 then Breaks else Runs
      ensures fate == Runs && master ==> client == old(client)
      ensures fate == Runs && client ==> state == Running
      ensures fate == Runs && old(client) && master ==>
        state == Running && Grown(old(log.payload), log.payload)
      ensures fate == Runs && !old(client) && master && old(bulkSize) > 0 ==>
        state == Sync && bulkSize == old(bulkSize) && Read(old(log), Payload(false), log)
      ensures log == old(log).(payload := log.payload)
      ensures old(client) && old(bulkSize) >= 0 ==> (master <==> PayloadFlows(old(script), old(bulkSize), old(|incoming|)))
      ensures !old(client) && old(bulkSize) > 0 ==> (master <==> Arrives(old(script), old(|incoming|)))
      ensures old(bulkSize) == 0 ==> master && state == Running && log == old(log)
    {
      hide IsHeader, BulkSize, Seen, UpToDate, Grown, Whole, Counted, Reads, Passing, Arrives, PayloadFlows, AtOnce, Read;
      ghost var start := log.payload;
      GrownNot(start);
      while bulkSize != 0
        invariant Flowing() && state == Sync && log == old(log).(payload := log.payload) && client == old(client)
        invariant Counted(log.payload) + bulkSize == Counted(start) + old(bulkSize)
        invariant (old(bulkSize) < 0 <==> bulkSize < 0) && Grown(start, log.payload) && Whole(log.payload)
        invariant !client || old(bulkSize) == 0 ==> bulkSize == old(bulkSize) && log == old(log)
        invariant bulkSize >= 0 && client ==>
          PayloadFlows(old(script), old(bulkSize), old(|incoming|)) == PayloadFlows(script, bulkSize, |incoming|)
        invariant !client ==> Arrives(old(script), old(|incoming|)) == Arrives(script, |incoming|)
        invariant stream == old(stream) && earlier == old(earlier)
        decreases |script|
      {
        if bulkSize < 0 {
          return Breaks;
        }
        var n := ReadSome(start);
        if n < 0 {
          if master { OneMore(old(log), log); }
          return Runs;
        }
      }
      PayloadStep(script, 0, |incoming|);
      state := Running;
      return Runs;
    }

    // What has been read while the delivery of everything before it is complete.
    ghost predicate Holding(b: bytes)
      reads this
    {
      && Linked(b) && master && InPhase(log, state, bulkSize)
      && delivered <= Seen(log)[mark..] && (client ==> UpToDate())
    }

    method PassCommands(n: nat)
      requires 0 < n <= rdata.Length && Holding(rdata[..n]) && state == Running
      modifies this
      ensures stream == old(stream) && earlier == old(earlier)
      ensures Valid()
      ensures log == AddCommands(old(log), rdata[..n]) && scanned == old(scanned) + rdata[..n]
      ensures master ==> state == old(state) && client == old(client)
      ensures master <==> !Next(old(script)).Fails? && (old(client) ==> Gets(Rest(old(script)), n))
    {
      ghost var seen := Seen(log);
      hide IsHeader, BulkSize, Seen;
      ProcessInputBuffer(n);
      assert Seen(log)[mark..] == seen[mark..] + rdata[..n];
      assert rdata[0..0 + n] == rdata[..n];
      var _ := WriteData(0, n);
    }

    method PassGreeting(n: nat)
      requires 0 < n <= rdata.Length && Holding(rdata[..n]) && state == Start
      modifies this
      ensures stream == old(stream) && earlier == old(earlier)
      ensures Valid()
      ensures log == Add(old(log), Greeting, rdata[..n]) && scanned == old(scanned)
      ensures master ==> client == old(client) && state == if StartsSync(rdata[..], n) then SyncStart else Start
      ensures master <==> old(client) ==> Gets(old(script), n)
    {
      hide UpToDate, Seen;
      assert rdata[0..0 + n] == rdata[..n];
      if StartsSync(rdata[..], n) {
        state := SyncStart;
      }
      var _ := Forward(0, n, Greeting);
    }

    // Outside a sync: commands go to the scanner and then to the slave; before it, the master's answer
    // to the slave's request decides whether a sync starts.
    method ReadChunk() returns (n: int)
      requires Valid() && master && (state == Running || state == Start)
      modifies this, rdata
      ensures stream == old(stream) && earlier == old(earlier)
      ensures Valid()
      ensures n <= 0 ==> log == old(log) && scanned == old(scanned)
      ensures n > 0 ==> n <= rdata.Length
      ensures n > 0 && old(state) == Running ==>
        log == AddCommands(old(log), rdata[..n]) && scanned == old(scanned) + rdata[..n]
      ensures n > 0 && old(state) == Start ==> log == Add(old(log), Greeting, rdata[..n]) && scanned == old(scanned)
      ensures n > 0 ==> rdata[..n] == old(incoming)[..n]
      ensures n == Reads(old(script), MAX_READ, old(|incoming|))
      ensures master <==> ChunkFlows(old(script), old(|incoming|), old(state), old(client))
      ensures master ==> client == old(client)
      ensures master ==> state == (if old(state) == Start && n > 0 && StartsSync(rdata[..], n) then SyncStart else old(state))
    {
      hide InPhase, UpToDate, Seen, Gets, Reads, Next;
      n := ReadData(0, MAX_READ);
      if n <= 0 {
        return;
      }
      assert rdata[0..0 + n] == rdata[..n];
      if state == Running {
        PassCommands(n);
      } else {
        PassGreeting(n);
      }
    }

    method ReadFromMaster() returns (fate: Fate)
      requires Valid() && master
      modifies this, rdata
      ensures stream == old(stream) && earlier == old(earlier)
      ensures fate == Runs ==> Valid()
      ensures fate == Runs && client && old(state) == SyncStart ==> state == Sync
      ensures old(state) == Sync && old(bulkSize) > 0 ==> fate == Runs
      ensures fate == Runs && old(client) && master && old(state) == Sync ==>
        state == Running && Grown(old(log.payload), log.payload)
      ensures fate == Runs && !old(client) && master && old(state) == Sync && old(bulkSize) > 0 ==>
        state == Sync && bulkSize == old(bulkSize) && Read(old(log), Payload(false), log)
      ensures fate == Runs && client && old(state) == Running ==> state == Running
      // When the connections stay open.
      ensures old(state) == Start || old(state) == Running ==>
        fate == Runs && (master <==> ChunkFlows(old(script), old(|incoming|), old(state), old(client)))
      ensures old(client) && old(state) == SyncStart ==>
        var end := HeaderEnd(old(script), old(incoming), 0);
        && fate == (if end == None then (if [MINUS] <= Line(log.header) then Exits else Runs) else end.value)
        && (fate == Runs ==> (master <==> end == None))
      ensures old(client) && old(state) == Sync && old(bulkSize) >= 0 ==>
        (master <==> PayloadFlows(old(script), old(bulkSize), old(|incoming|)))
      ensures !old(client) && (old(state) == SyncStart || (old(state) == Sync && old(bulkSize) > 0)) ==>
        fate == Runs && (master <==> Arrives(old(script), old(|incoming|)))
      // Where each part of the log ends.
      ensures old(state) == Start && old(script) != [] && old(script)[0].Moves? ==>
        var n := Moved(old(script)[0].n, MAX_READ, old(|incoming|));
        && log == (if n > 0 then Add(old(log), Greeting, old(incoming)[..n]) else old(log))
        && (n > 0 ==> rdata[..n] == old(incoming)[..n])
        && (master && n > 0 ==> state == if StartsSync(rdata[..], n) then SyncStart else Start)
      ensures old(state) == SyncStart ==> log.greeting == old(log.greeting)
      ensures fate == Runs && master ==> client == old(client)
      ensures fate == Runs && client && old(state) == SyncStart ==> log.lost == old(log.lost) && log.payload == []
      ensures fate == Runs && master && !client && old(state) == SyncStart ==>
        state == SyncStart && Read(old(log), Lost, log)
      ensures old(state) == Sync ==> log == old(log).(payload := log.payload)
      ensures old(state) == Running ==> log == old(log).(commands := log.commands) && old(log).commands <= log.commands
    {
      fate := Runs;
      match state
      case SyncStart => fate := ReadHeader();
      case Sync => fate := ReadPayload();
      case Start => var _ := ReadChunk();
      case Running => var _ := ReadChunk();
    }

    // Once the relay runs: how what it has read compares with what the master means.
    lemma InStream(g: bytes, h: bytes, p: bytes, c: bytes)
      requires Valid() && master && state == Running
      requires stream == g + (h + (p + c)) && IsHeader(h) && |p| == BulkSize(h)
      ensures Exact(log, g, h, p, c) <==> |Before(log)| == |g| && forall k <- log.payload :: k.connected
      ensures Exact(log, g, h, p, c) ==> scanned == earlier + Seen(log)[|g| + |h| + |p|..] && scanned <= earlier + c
    {
      assert Seen(log) <= stream;
      StreamExact(log, bulkSize, g, h, p, c);
    }

    // A request of the slave, and whether the master takes it.
    method ReadFromSlave(request: bytes, taken: bool)
      requires Valid() && client && 0 < |request| <= MAX_READ
      modifies this
      ensures stream == old(stream)
      ensures Valid()
      ensures state == if !taken then Start else if request == [83, 89, 78, 67, 13, 10] then SyncStart else old(state)
      ensures log == (if request == SYNC then NOTHING.(greeting := Seen(old(log))) else old(log)) && scanned == old(scanned)
      ensures upstream == if taken then old(upstream) + request else old(upstream)
      ensures master == client == taken
      ensures script == old(script) && incoming == old(incoming) && delivered == old(delivered)
    {
      if request == SYNC {
        state := SyncStart;
        log, earlier := NOTHING.(greeting := Seen(log)), scanned;
      }
      if !taken {
        CloseFd();
        return;
      }
      upstream := upstream + request;
    }
  }

  lemma ResyncStarts(buffer: bytes, n: nat, b: bytes)
    requires |FULLRESYNC| <= n < 100 && n <= |buffer| && n <= |b| && buffer[..n] == b[..n] && FULLRESYNC <= b
    ensures StartsSync(buffer, n)
  {
    assert buffer[..n][..|FULLRESYNC|] == b[..n][..|FULLRESYNC|] == b[..|FULLRESYNC|];
    assert buffer[..|FULLRESYNC|] == FULLRESYNC;
  }

  // A sync with a slave connected throughout.  The relay cuts the stream where the master means it if and
  // only if the chunk that starts the sync ends where the greeting ends.
  method SyncRun(r: Relay, ghost m: nat, ghost g: bytes, ghost h: bytes, ghost p: bytes, ghost c: bytes)
    returns (fate: Fate)
    requires r.Valid() && r.master && r.client && r.state == Start && r.log == NOTHING
    requires r.stream == g + (h + (p + c)) && FULLRESYNC <= g && IsHeader(h) && |p| == BulkSize(h)
    requires r.script != [] && r.script[0].Moves? && m == Moved(r.script[0].n, MAX_READ, |r.stream|)
    requires |FULLRESYNC| <= m < 100
    modifies r, r.rdata
    ensures fate == Runs ==> r.Valid()
    ensures fate == Runs && r.master ==> r.state == Running && (Exact(r.log, g, h, p, c) <==> m == |g|)
  {
    hide IsHeader, BulkSize, StartsSync, Exact;
    ghost var stream := r.stream;
    assert stream == Seen(NOTHING) + [] + r.incoming && r.incoming == stream;
    fate := r.ReadFromMaster();
    if fate != Runs || !r.master {
      return;
    }
    ResyncStarts(r.rdata[..], m, stream);
    assert |r.log.greeting| == m;
    fate := r.ReadFromMaster();
    if fate != Runs || !r.master {
      return;
    }
    assert |Before(r.log)| == m;
    fate := r.ReadFromMaster();
    if fate == Runs && r.master {
      assert r.log.payload[0..] == r.log.payload;
      r.InStream(g, h, p, c);
    }
  }

  // The first byte of a header is read while no slave is connected: whatever is connected afterwards, the
  // stream is cut elsewhere.
  method HeaderWithoutSlave(r: Relay, registered: bool, ghost g: bytes, ghost h: bytes, ghost p: bytes, ghost c: bytes)
    returns (fate: Fate)
    requires r.Valid() && r.master && r.state == SyncStart && |Before(r.log)| == |g|
    requires r.stream == g + (h + (p + c)) && IsHeader(h) && |p| == BulkSize(h)
    modifies r, r.rdata
    ensures fate == Runs ==> r.Valid()
    ensures fate == Runs && r.master ==> r.state == Running && !Exact(r.log, g, h, p, c)
  {
    hide IsHeader, BulkSize, StartsSync, Exact;
    r.Accept(false, false);
    ghost var was := r.log;
    fate := r.ReadFromMaster();
    if fate != Runs || !r.master {
      return;
    }
    LostOne(was, r.log);
    r.Accept(true, registered);
    if !r.master {
      return;
    }
    fate := r.ReadFromMaster();
    if fate != Runs || !r.master {
      return;
    }
    assert |Before(r.log)| > |g|;
    fate := r.ReadFromMaster();
    if fate == Runs && r.master {
      r.InStream(g, h, p, c);
    }
  }

  lemma LostOne(l: Log, m: Log)
    requires Fits(l, Lost) && Read(l, Lost, m)
    ensures |Before(m)| > |Before(l)|
  {
  }

  // A slave's connection fails during a sync, and the next one does not: unless everything is closed, more than
  // the announced number of bytes pass before the scanner gets its first one.
  method FailedAccept(r: Relay, registered: bool)
    requires r.Valid() && r.master && r.state == Sync && r.bulkSize > 0
    modifies r, r.rdata
    ensures r.Valid()
    ensures r.master ==> r.state == Running && |Joined(r.log.payload)| > BulkSize(r.log.header)
  {
    r.Accept(false, false);
    ghost var was := r.log;
    var fate := r.ReadFromMaster();
    if !r.master {
      return;
    }
    OneMore(was, r.log);
    MissedOne(was, r.log);
    ghost var lost := r.log.payload;
    r.Accept(true, registered);
    if !r.master {
      return;
    }
    fate := r.ReadFromMaster();
    if r.master {
      MissedGrows(lost, r.log.payload);
      JoinedLength(r.log.payload);
    }
  }

  lemma MissedOne(l: Log, m: Log)
    requires l.commands == [] && Read(l, Payload(false), m)
    ensures Missed(m.payload) > 0
  {
    var b :| b != [] && m == Add(l, Payload(false), b);
    assert m.payload[..|l.payload|] == l.payload;
  }

  lemma {:induction false} MissedGrows(was: seq<Chunk>, now: seq<Chunk>)
    requires was <= now
    ensures Missed(was) <= Missed(now)
    decreases |now|
  {
    if |was| < |now| {
      MissedGrows(was, now[..|now| - 1]);
    } else {
      assert was == now;
    }
  }

  // ---------------------------------------------------------------- the stream as the master means it

  // The master sends the greeting g, the header h, the payload p and then the commands c; the relay has cut
  // what it has read of them in the same places.
  predicate Exact(l: Log, g: bytes, h: bytes, p: bytes, c: bytes) {
    Before(l) == g && l.header == h && Joined(l.payload) == p && l.commands <= c
  }

  // Behind its blank lines a header has one line feed.
  lemma LineEnds(h: bytes, k: nat)
    requires IsHeader(h) && h[0] != LF && k < |h| && h[k] == LF
    ensures k == |h| - 1
  {
    var line := Line(h);
    assert forall j :: 0 <= j < |line| ==> line[j] == h[j] && line[j] in line;
  }

  // A stream begins with at most one header.
  lemma {:induction false} HeaderUnique(h: bytes, s: bytes, h': bytes, s': bytes)
    requires IsHeader(h) && IsHeader(h') && h + s <= h' + s'
    ensures h == h' && s <= s'
    decreases |h|
  {
    assert (h + s)[0] == (h' + s')[0] && h[0] == h'[0];
    if h[0] == LF {
      assert (h + s)[1..] == h[1..] + s && (h' + s')[1..] == h'[1..] + s';
      HeaderUnique(h[1..], s, h'[1..], s');
    } else {
      var (n, n') := (|h| - 1, |h'| - 1);
      assert (h + s)[n] == (h' + s')[n] == LF;
      if n <= n' {
        LineEnds(h', n);
      } else {
        assert (h + s)[n'] == (h' + s')[n'] == LF;
        LineEnds(h, n');
      }
      Front(h, s, h', s');
    }
  }

  lemma Behind(a: bytes, s: bytes, t: bytes)
    requires a + s <= a + t
    ensures s <= t
  {
    assert s == (a + s)[|a|..] && t == (a + t)[|a|..];
    assert (a + t)[..|a + s|][|a|..] == (a + t)[|a|..][..|s|];
  }

  lemma Front(a: bytes, s: bytes, b: bytes, t: bytes)
    requires a + s <= b + t && |a| == |b|
    ensures a == b && s <= t
  {
    assert a == (a + s)[..|a|] == (b + t)[..|a|] == b;
    Behind(a, s, t);
  }

  // The relay cuts the stream where the master means it if and only if all it had read when the header
  // began was the greeting, and a slave was connected whenever a chunk of the payload was read.
  lemma StreamExact(l: Log, bulkSize: int, g: bytes, h: bytes, p: bytes, c: bytes)
    requires InPhase(l, Running, bulkSize) && IsHeader(h) && |p| == BulkSize(h) && Seen(l) <= g + (h + (p + c))
    ensures Exact(l, g, h, p, c) <==> |Before(l)| == |g| && forall k <- l.payload :: k.connected
    ensures |l.greeting| == |g| ==> (Exact(l, g, h, p, c) <==> l.lost == [] && forall k <- l.payload :: k.connected)
  {
    hide IsHeader, BulkSize;
    JoinedLength(l.payload);
    var joined := Joined(l.payload);
    assert Seen(l) == Before(l) + (l.header + (joined + l.commands));
    if |Before(l)| == |g| {
      Front(Before(l), l.header + (joined + l.commands), g, h + (p + c));
      HeaderUnique(l.header, joined + l.commands, h, p + c);
      if |joined| == |p| { Front(joined, l.commands, p, c); }
    }
  }

  // The header arrives in the chunk that starts the sync: the next line of the stream, which begins with the
  // payload, is taken for the header.
  lemma TogetherInput()
    ensures var (g, h, p, c) := (FULLRESYNC + CRLF, [DOLLAR, ZERO + 1, CR, LF], [97],
                                 [STAR, ZERO + 1, CR, LF, DOLLAR, ZERO + 4, CR, LF]);
      var l := Log(g + h, [], [97, STAR, ZERO + 1, CR, LF], [], [DOLLAR, ZERO + 4, CR, LF]);
      && IsHeader(h) && |p| == BulkSize(h) && StartsSync(g + h, |g + h|)
      && Seen(l) == g + (h + (p + c)) && InPhase(l, Running, 0) && !(l.commands <= c)
  {
    hide IsHeader, BulkSize;
    OneAnnounced();
    var (g, h, p, c) := (FULLRESYNC + CRLF, [DOLLAR, ZERO + 1, CR, LF], [97],
                         [STAR, ZERO + 1, CR, LF, DOLLAR, ZERO + 4, CR, LF]);
    var line: bytes := [97, STAR, ZERO + 1, CR];
    ParsedSize(line);
    assert Digits(line[1..]) == [] && line + [LF] == [97, STAR, ZERO + 1, CR, LF];
    var l := Log(g + h, [], line + [LF], [], [DOLLAR, ZERO + 4, CR, LF]);
    assert p + c == l.header + l.commands;
    SeenIs(l, g, h, p + c);
    assert FULLRESYNC <= g + h by { assert (g + h)[..11] == FULLRESYNC; }
    assert l.commands[0] != c[0];
  }

  // The size parsed from a line without blank lines before it.
  lemma ParsedSize(line: bytes)
    requires line != [] && LF !in line && line[0] != LF
    ensures IsHeader(line + [LF]) && BulkSize(line + [LF]) == Signed64(StrToULL(line[1..]))
  {
    HeaderIs([], line);
    assert [] + line + [LF] == line + [LF];
  }

  lemma SeenIs(l: Log, g: bytes, h: bytes, rest: bytes)
    requires (Before(l) == g + h && l.header + Joined(l.payload) + l.commands == rest)
      || (Before(l) + l.header == g + h && Joined(l.payload) + l.commands == rest)
    ensures Seen(l) == g + (h + rest)
  {
  }

  lemma OneAnnounced()
    ensures IsHeader([DOLLAR, ZERO + 1, CR, LF]) && BulkSize([DOLLAR, ZERO + 1, CR, LF]) == 1
  {
    AnnouncedSize(1, 0);
    assert Decimal(1) == [ZERO + 1];
    assert [DOLLAR, ZERO + 1, CR, LF] == seq(0, _ => LF) + [DOLLAR] + Decimal(1) + CRLF;
    HeaderIs([], [DOLLAR, ZERO + 1, CR]);
    assert [] + [DOLLAR, ZERO + 1, CR] + [LF] == [DOLLAR, ZERO + 1, CR, LF];
  }

  // The dollar sign is read while no slave is connected: twelve bytes are announced, two are taken for the
  // payload, and ten go to the scanner.
  lemma LostDollar()
    ensures var (g, h, p) := (FULLRESYNC + CRLF, [DOLLAR, ZERO + 1, ZERO + 2, CR, LF], seq(12, _ => 97));
      var l := Log(g, [DOLLAR], [ZERO + 1, ZERO + 2, CR, LF], [Chunk([97, 97], true)], seq(10, _ => 97));
      && IsHeader(h) && |p| == BulkSize(h)
      && Seen(l) == g + (h + (p + [])) && InPhase(l, Running, 0) && forall k <- l.payload :: k.connected
  {
    hide IsHeader, BulkSize;
    TwelveAnnounced();
    TwoParsed();
    var (g, h) := (FULLRESYNC + CRLF, [DOLLAR, ZERO + 1, ZERO + 2, CR, LF]);
    var line: bytes := [ZERO + 1, ZERO + 2, CR];
    assert line + [LF] == [ZERO + 1, ZERO + 2, CR, LF];
    var cs := [Chunk([97, 97], true)];
    OneChunk(cs[0]);
    var l := Log(g, [DOLLAR], line + [LF], cs, seq(10, _ => 97));
    assert [DOLLAR] + (line + [LF]) == h;
    assert Before(l) + l.header == g + ([DOLLAR] + (line + [LF]));
    var rest: bytes := seq(12, _ => 97);
    assert [97, 97] + l.commands == rest == rest + [];
    SeenIs(l, g, h, rest + []);
  }

  lemma TwelveAnnounced()
    ensures IsHeader([DOLLAR, ZERO + 1, ZERO + 2, CR, LF]) && BulkSize([DOLLAR, ZERO + 1, ZERO + 2, CR, LF]) == 12
  {
    hide IsHeader, BulkSize;
    AnnouncedSize(12, 0);
    assert Decimal(12) == Decimal(1) + [ZERO + 2] == [ZERO + 1, ZERO + 2];
    var h := [DOLLAR, ZERO + 1, ZERO + 2, CR, LF];
    assert h == seq(0, _ => LF) + [DOLLAR] + Decimal(12) + CRLF;
    ParsedSize([DOLLAR, ZERO + 1, ZERO + 2, CR]);
    assert [DOLLAR, ZERO + 1, ZERO + 2, CR] + [LF] == h;
  }

  lemma TwoParsed()
    ensures IsHeader([ZERO + 1, ZERO + 2, CR, LF]) && BulkSize([ZERO + 1, ZERO + 2, CR, LF]) == 2
  {
    hide IsHeader, BulkSize;
    var line: bytes := [ZERO + 1, ZERO + 2, CR];
    ParsedSize(line);
    assert line[1..] == [ZERO + 2] + [CR] && line + [LF] == [ZERO + 1, ZERO + 2, CR, LF];
    DigitsOf([ZERO + 2], [CR]);
    assert Value([ZERO + 2]) == 2;
  }

  lemma OneChunk(k: Chunk)
    ensures Joined([k]) == k.bytes_ && Counted([k]) == if k.connected then |k.bytes_| else 0
  {
    assert [k][..0] == [] && [] + k.bytes_ == k.bytes_;
  }

  // When no payload follows the greeting, the first line of the commands is taken for the header, and the
  // scanner never gets it.
  lemma NoPayload(l: Log, bulkSize: int, g: bytes, c: bytes)
    requires InPhase(l, Running, bulkSize) && Seen(l) <= g + c && |Before(l)| == |g|
    ensures l.header + Joined(l.payload) + l.commands <= c && |l.commands| < |c|
  {
    var rest := l.header + Joined(l.payload) + l.commands;
    assert Seen(l) == Before(l) + rest;
    Front(Before(l), rest, g, c);
  }

  lemma NothingSeen()
    ensures Seen(NOTHING) == []
  {
  }

  lemma SeenMore(seen: bytes, b: bytes, mark: nat)
    requires mark <= |seen|
    ensures (seen + b)[mark..] == seen[mark..] + b && seen[mark..] <= seen[mark..] + b
  {
  }

  lemma MorePrefix(start: bytes, b: bytes, all: nat, more: nat)
    requires all + more <= |b|
    ensures start + b[..all] + b[all..all + more] == start + b[..all + more]
    ensures start + b[..all + more] <= start + b && start + b[..0] == start
  {
    assert b[..all] + b[all..all + more] == b[..all + more];
    assert (start + b)[..|start| + all + more] == start + b[..all + more];
  }

  lemma Taken(seen: bytes, rest: bytes, n: nat)
    requires n <= |rest|
    ensures seen + [] + rest == seen + rest[..n] + rest[n..]
  {
    assert rest == rest[..n] + rest[n..];
  }

  lemma {:induction false} HeaderIs(blank: bytes, line: bytes)
    requires (forall i :: 0 <= i < |blank| ==> blank[i] == LF) && line != [] && LF !in line
    ensures Line(blank + line + [LF]) == line && IsHeader(blank + line + [LF])
    decreases |blank|
  {
    var h := blank + line + [LF];
    if blank == [] {
      assert h == line + [LF] && h[..|h| - 1] == line && h[0] == line[0] && line[0] in line;
    } else {
      assert h[1..] == blank[1..] + line + [LF];
      HeaderIs(blank[1..], line);
    }
  }
}
