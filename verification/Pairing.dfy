/** Over every run, each stored value lies under the key whose query it answers. */
module Pairing {
  import opened Bytes
  import opened Powers
  import opened Reply
  import opened Proxy
  import Q = CirQueue

  // The proxy's connection, the keys whose queries went out on it in order, the replies the slave has
  // decided on so far, the bytes of them that have come in, and what was stored before it was opened.
  datatype World = World(st: State, sent: seq<bytes>, replies: seq<Message>, got: bytes, earlier: seq<Entry>)

  datatype Step =
    | Ask(key: bytes, written: bool)
    | Answer(m: Message)
    | Receive(chunk: bytes)
    | Close
    | Open

  // A hash, or a line the parser takes for an answer.
  predicate IsAnswer(m: Message) {
    WellFormed(m) && |Encode(m)| <= MAX_READ && (m.Notice? ==> |m.text| > 3)
  }

  // The slave answers the queries it was sent, in order, and its bytes arrive in order.
  predicate Legal(w: World, step: Step) {
    match step
    case Ask(_, _) => true
    case Answer(m) => w.st.open && |w.replies| < |w.sent| && IsAnswer(m)
    case Receive(chunk) => w.st.open && |chunk| <= MAX_READ && w.got + chunk <= EncodeAll(w.replies)
    case Close => true
    case Open => !w.st.open
  }

  function Fresh(st: State): World {
    World(st, [], [], [], st.stored)
  }

  function After(w: World, step: Step): World {
    match step
    case Ask(key, written) =>
      var st := Asked(w.st, key, written);
      if st == w.st then w
      else if st.open then w.(st := st, sent := w.sent + [key])
      else Fresh(st)
    case Answer(m) => w.(replies := w.replies + [m])
    case Receive(chunk) => w.(st := Received(w.st, chunk).0, got := w.got + chunk)
    case Close => Fresh(Closed(w.st))
    case Open => w.(st := w.st.(open := true))
  }

  function Commands(keys: seq<bytes>): bytes {
    if keys == [] then [] else Commands(keys[..|keys| - 1]) + Command(keys[|keys| - 1])
  }

  // "hgetall ", the key and a line end.
  lemma CommandIs(key: bytes)
    requires 0 !in key
    ensures Command(key) == [104, 103, 101, 116, 97, 108, 108, 32] + key + [13, 10]
  {
    StrCopyWhole(key);
  }

  // A line is what comes after the line feed before its own.
  predicate IsLine(u: bytes) {
    u != [] && u[|u| - 1] == LF && LF !in u[..|u| - 1]
  }

  lemma LastLine(s: bytes, u: bytes, t: bytes, v: bytes)
    requires IsLine(u) && IsLine(v) && s + u == t + v
    requires (s == [] || s[|s| - 1] == LF) && (t == [] || t[|t| - 1] == LF)
    ensures s == t && u == v
  {
    var all := s + u;
    assert forall k :: |s| <= k < |all| - 1 ==> all[k] == u[..|u| - 1][k - |s|];
    assert forall k :: |t| <= k < |all| - 1 ==> all[k] == v[..|v| - 1][k - |t|];
    assert s != [] ==> all[|s| - 1] == LF;
    assert t != [] ==> all[|t| - 1] == LF;
    assert |s| == |t|;
    assert s == all[..|s|] == t && u == all[|s|..] == v;
  }

  lemma CommandLine(key: bytes)
    requires 0 !in key && LF !in key
    ensures IsLine(Command(key)) && |Command(key)| == |key| + 10 && Command(key)[8..|key| + 8] == key
  {
    CommandIs(key);
  }

  lemma LastCommand(s: bytes, x: bytes, t: bytes, y: bytes)
    requires 0 !in x && 0 !in y && LF !in x && LF !in y && s + Command(x) == t + Command(y)
    requires (s == [] || s[|s| - 1] == LF) && (t == [] || t[|t| - 1] == LF)
    ensures s == t && x == y
  {
    hide Command, IsLine;
    CommandLine(x);
    CommandLine(y);
    LastLine(s, Command(x), t, Command(y));
  }

  lemma CommandsEnd(keys: seq<bytes>)
    ensures Commands(keys) == [] || Commands(keys)[|Commands(keys)| - 1] == LF
    ensures keys != [] ==> Commands(keys) != []
  {
  }

  // The keys asked for can be read from what has been sent, if they have no line feeds.
  lemma {:induction false} CommandsTell(a: seq<bytes>, b: seq<bytes>)
    requires forall x <- a :: 0 !in x && LF !in x
    requires forall x <- b :: 0 !in x && LF !in x
    ensures Commands(a) == Commands(b) <==> a == b
    decreases |a|
  {
    hide Command;
    CommandsEnd(a);
    CommandsEnd(b);
    if Commands(a) == Commands(b) && a != [] && b != [] {
      var (m, n) := (|a| - 1, |b| - 1);
      CommandsEnd(a[..m]);
      CommandsEnd(b[..n]);
      LastCommand(Commands(a[..m]), a[m], Commands(b[..n]), b[n]);
      CommandsTell(a[..m], b[..n]);
      assert a == a[..m] + [a[m]] && b == b[..n] + [b[n]];
    }
  }

  // What the replies store when reply i answers key i.
  function Entries(keys: seq<bytes>, ms: seq<Message>): seq<Entry>
    requires |ms| <= |keys|
    decreases |ms|
  {
    if ms == [] then []
    else (if ms[0].Hash? then [(keys[0], Overlay(map[], ms[0].pairs))] else []) + Entries(keys[1..], ms[1..])
  }

  ghost predicate Paired(w: World) {
    var k := Arrived(w.replies, w.got);
    && |w.replies| <= |w.sent| && (forall m <- w.replies :: IsAnswer(m))
    && w.got <= EncodeAll(w.replies)
    && w.st.queue == w.sent[k..]
    && w.st.buf == Pending(w.replies, w.got)
    && w.st.stored == w.earlier + Entries(w.sent, w.replies[..k])
    && w.st.output == Commands(w.sent)
    && (!w.st.open ==> w.sent == [])
  }

  // ---------------------------------------------------------------- sequences of replies

  lemma {:induction false} EventsSplit(a: seq<Message>, b: seq<Message>)
    ensures EventsOf(a + b) == EventsOf(a) + EventsOf(b)
  {
    hide EventOf;
    if a == [] {
      assert a + b == b;
      assert [] + EventsOf(b) == EventsOf(b);
    } else {
      EventsSplit(a[1..], b);
      assert (a + b)[1..] == a[1..] + b;
      assert [EventOf(a[0])] + EventsOf(a[1..]) + EventsOf(b) == [EventOf(a[0])] + (EventsOf(a[1..]) + EventsOf(b));
    }
  }

  lemma {:induction false} EntriesSplit(keys: seq<bytes>, a: seq<Message>, b: seq<Message>)
    requires |a + b| <= |keys|
    ensures Entries(keys, a + b) == Entries(keys, a) + Entries(keys[|a|..], b)
    decreases |a|
  {
    hide Overlay;
    if a == [] {
      assert a + b == b && keys[0..] == keys;
      assert [] + Entries(keys, b) == Entries(keys, b);
    } else {
      var first := if a[0].Hash? then [(keys[0], Overlay(map[], a[0].pairs))] else [];
      EntriesSplit(keys[1..], a[1..], b);
      assert (a + b)[1..] == a[1..] + b && keys[1..][|a| - 1..] == keys[|a|..];
      assert first + Entries(keys[1..], a[1..]) + Entries(keys[|a|..], b)
          == first + (Entries(keys[1..], a[1..]) + Entries(keys[|a|..], b));
    }
  }

  // Keys that no reply reaches do not matter.
  lemma {:induction false} EntriesLonger(keys: seq<bytes>, more: seq<bytes>, ms: seq<Message>)
    requires |ms| <= |keys|
    ensures Entries(keys + more, ms) == Entries(keys, ms)
    decreases |ms|
  {
    if ms != [] {
      EntriesLonger(keys[1..], more, ms[1..]);
      assert (keys + more)[1..] == keys[1..] + more;
    }
  }

  lemma {:induction false} ArrivedMonotone(ms: seq<Message>, s: bytes, t: bytes)
    ensures Arrived(ms, s) <= Arrived(ms, s + t)
    decreases |ms|
  {
    if ms != [] && |s| >= |Encode(ms[0])| {
      assert (s + t)[|Encode(ms[0])|..] == s[|Encode(ms[0])|..] + t;
      ArrivedMonotone(ms[1..], s[|Encode(ms[0])|..], t);
    }
  }

  // A reply decided on later does not change what has arrived.
  lemma {:induction false} AnswerLater(ms: seq<Message>, m: Message, s: bytes)
    requires s <= EncodeAll(ms)
    ensures Arrived(ms + [m], s) == Arrived(ms, s) && Pending(ms + [m], s) == Pending(ms, s)
    ensures s <= EncodeAll(ms + [m])
    decreases |ms|
  {
    hide Encode;
    if ms != [] {
      var e := Encode(ms[0]);
      assert (ms + [m])[1..] == ms[1..] + [m];
      if |s| >= |e| {
        PastFirst(s, e, EncodeAll(ms[1..]));
        AnswerLater(ms[1..], m, s[|e|..]);
      } else {
        PrefixOfSum(s, e, EncodeAll(ms[1..]));
      }
    }
  }

  // Replies that answer the queue in order store each value under its key.
  lemma {:induction false} HandleReplies(st: State, ms: seq<Message>)
    requires |ms| <= |st.queue| && forall m <- ms :: IsAnswer(m)
    ensures HandleAll(st, EventsOf(ms))
         == (st.(queue := st.queue[|ms|..], stored := st.stored + Entries(st.queue, ms)), Runs)
    decreases |ms|
  {
    hide IsAnswer;
    if ms == [] {
      assert st.stored + [] == st.stored && st.queue[0..] == st.queue;
    } else {
      var q := st.queue;
      AnswerPops(st, ms[0]);
      var t := Handle(st, EventOf(ms[0])).0;
      HandleReplies(t, ms[1..]);
      assert q[1..][|ms| - 1..] == q[|ms|..];
      var first := if ms[0].Hash? then [(q[0], Overlay(map[], ms[0].pairs))] else [];
      assert (st.stored + first) + Entries(q[1..], ms[1..]) == st.stored + Entries(q, ms);
    }
  }

  lemma AnswerPops(st: State, m: Message)
    requires IsAnswer(m) && st.queue != []
    ensures Handle(st, EventOf(m)) == (st.(queue := st.queue[1..],
      stored := st.stored + if m.Hash? then [(st.queue[0], Overlay(map[], m.pairs))] else []), Runs)
  {
    assert st.stored + [] == st.stored;
  }

  lemma PendingShort(ms: seq<Message>, s: bytes)
    requires s <= EncodeAll(ms) && forall m <- ms :: IsAnswer(m)
    ensures |Pending(ms, s)| < MAX_READ
  {
    hide Encode, Arrived, Pending;
    StreamSplits(ms, s);
    if Arrived(ms, s) < |ms| { assert IsAnswer(ms[Arrived(ms, s)]); }
  }

  // ---------------------------------------------------------------- each step

  // A chunk on top of the tail of what came before yields exactly the replies it completes.
  lemma NewReplies(ms: seq<Message>, got: bytes, chunk: bytes)
    requires (forall m <- ms :: IsAnswer(m)) && |chunk| <= MAX_READ && got + chunk <= EncodeAll(ms)
    ensures Arrived(ms, got) <= Arrived(ms, got + chunk)
    ensures FeedOne(Pending(ms, got), chunk)
         == Outcome(EventsOf(ms[Arrived(ms, got)..Arrived(ms, got + chunk)]), Pending(ms, got + chunk), Waiting)
  {
    hide ParseAll, FeedOne, Arrived, Pending, Encode, WellFormed, EventOf;
    var s := got + chunk;
    var (k, n) := (Arrived(ms, got), Arrived(ms, s));
    assert got <= EncodeAll(ms) by { assert got == s[..|got|]; }
    ArrivedMonotone(ms, got, chunk);
    StreamParses(ms, got);
    StreamParses(ms, s);
    PendingShort(ms, got);
    PendingShort(ms, s);
    StreamClean(ms);
    assert 0 !in s by { assert forall b <- s :: b in EncodeAll(ms); }
    StepIsParse(got, chunk);
    var events := FeedOne(Pending(ms, got), chunk).events;
    EventsSplit(ms[..k], ms[k..n]);
    assert ms[..n] == ms[..k] + ms[k..n];
    var before := EventsOf(ms[..k]);
    assert (before + events)[|before|..] == events;
    assert (before + EventsOf(ms[k..n]))[|before|..] == EventsOf(ms[k..n]);
  }

  // Replies that answer the oldest keys, parsed out of a chunk.
  lemma ReceiveReplies(st: State, chunk: bytes, ms: seq<Message>, tail: bytes)
    requires FeedOne(st.buf, chunk) == Outcome(EventsOf(ms), tail, Waiting)
    requires |ms| <= |st.queue| && forall m <- ms :: IsAnswer(m)
    ensures Received(st, chunk)
         == (st.(queue := st.queue[|ms|..], buf := tail, stored := st.stored + Entries(st.queue, ms)), Runs)
  {
    hide ParseAll, Merged, IsAnswer, Entries, StrCopy, EventsOf;
    HandleReplies(st.(buf := []), ms);
    assert Saved([]) == [] by { StrCopyWhole([]); }
  }

  lemma EntriesGrow(earlier: seq<Entry>, keys: seq<bytes>, ms: seq<Message>, k: nat, n: nat)
    requires k <= n <= |ms| <= |keys|
    ensures earlier + Entries(keys, ms[..k]) + Entries(keys[k..], ms[k..n]) == earlier + Entries(keys, ms[..n])
  {
    hide Entries;
    assert ms[..n] == ms[..k] + ms[k..n];
    EntriesSplit(keys, ms[..k], ms[k..n]);
  }

  lemma ReceiveKeepsPairing(w: World, chunk: bytes)
    requires Paired(w) && Legal(w, Receive(chunk))
    ensures Paired(After(w, Receive(chunk))) && After(w, Receive(chunk)).st.open && Received(w.st, chunk).1 == Runs
  {
    hide FeedOne, EventsOf, Received, Arrived, Pending, IsAnswer, Entries, Commands;
    var (ms, s) := (w.replies, w.got + chunk);
    var (k, n) := (Arrived(ms, w.got), Arrived(ms, s));
    NewReplies(ms, w.got, chunk);
    ReceiveReplies(w.st, chunk, ms[k..n], Pending(ms, s));
    EntriesGrow(w.earlier, w.sent, ms, k, n);
    assert w.sent[k..][n - k..] == w.sent[n..];
  }

  lemma OneMoreKey(sent: seq<bytes>, key: bytes)
    ensures Commands(sent + [key]) == Commands(sent) + Command(key)
  {
    hide Command;
    var more := sent + [key];
    assert |more| == |sent| + 1 && more[|sent|] == key && more[..|sent|] == sent;
  }

  lemma OneMoreWaits(sent: seq<bytes>, key: bytes, k: nat)
    requires k <= |sent|
    ensures (sent + [key])[k..] == sent[k..] + [key]
  {
  }

  lemma AskKeepsPairing(w: World, key: bytes, written: bool)
    requires Paired(w)
    ensures Paired(After(w, Ask(key, written)))
  {
    hide Command, Commands, Encode, EncodeAll, Arrived, Pending, IsAnswer, Entries;
    var k := Arrived(w.replies, w.got);
    OneMoreKey(w.sent, key);
    OneMoreWaits(w.sent, key, k);
    EntriesLonger(w.sent, [key], w.replies[..k]);
    FreshIsPaired(Closed(w.st));
  }

  lemma FreshIsPaired(st: State)
    requires st.queue == [] && st.buf == [] && st.output == []
    ensures Paired(Fresh(st))
  {
    hide Encode, Command;
    assert st.stored + [] == st.stored;
  }

  lemma AnswerKeepsPairing(w: World, m: Message)
    requires Paired(w) && Legal(w, Answer(m))
    ensures Paired(After(w, Answer(m)))
  {
    hide Encode, WellFormed, Entries;
    AnswerLater(w.replies, m, w.got);
    var k := Arrived(w.replies, w.got);
    assert (w.replies + [m])[..k] == w.replies[..k];
  }

  lemma OpenKeepsPairing(w: World)
    requires Paired(w) && !w.st.open
    ensures Paired(w.(st := w.st.(open := true)))
  {
  }

  lemma StepKeepsPairing(w: World, step: Step)
    requires Paired(w) && Legal(w, step)
    ensures Paired(After(w, step))
  {
    match step
    case Ask(key, written) => AskKeepsPairing(w, key, written);
    case Answer(m) => AnswerKeepsPairing(w, m);
    case Receive(chunk) => ReceiveKeepsPairing(w, chunk);
    case Close => FreshIsPaired(Closed(w.st));
    case Open => OpenKeepsPairing(w);
  }

  // ---------------------------------------------------------------- every run

  function Run(w: World, steps: seq<Step>): World
    decreases |steps|
  {
    if steps == [] then w else Run(After(w, steps[0]), steps[1..])
  }

  predicate LegalRun(w: World, steps: seq<Step>)
    decreases |steps|
  {
    steps != [] ==> Legal(w, steps[0]) && LegalRun(After(w, steps[0]), steps[1..])
  }

  lemma {:induction false} RunSplits(w: World, a: seq<Step>, b: seq<Step>)
    ensures Run(w, a + b) == Run(Run(w, a), b)
    ensures LegalRun(w, a + b) <==> LegalRun(w, a) && LegalRun(Run(w, a), b)
    decreases |a|
  {
    hide After, Legal;
    if a == [] {
      assert a + b == b;
    } else {
      assert (a + b)[0] == a[0] && (a + b)[1..] == a[1..] + b;
      RunSplits(After(w, a[0]), a[1..], b);
    }
  }

  lemma TwoSteps(w: World, a: Step, b: Step, steps: seq<Step>)
    ensures Run(w, [a, b] + steps) == Run(After(After(w, a), b), steps)
    ensures LegalRun(w, [a, b] + steps)
       <==> Legal(w, a) && Legal(After(w, a), b) && LegalRun(After(After(w, a), b), steps)
  {
    hide After, Legal;
    assert ([a, b] + steps)[1..] == [b] + steps && ([b] + steps)[1..] == steps;
  }

  const INITIAL := Fresh(State([], [], [], false, []))

  lemma {:induction false} RunKeepsPairing(w: World, steps: seq<Step>)
    requires Paired(w) && LegalRun(w, steps)
    ensures Paired(Run(w, steps))
    decreases |steps|
  {
    if steps != [] {
      StepKeepsPairing(w, steps[0]);
      RunKeepsPairing(After(w, steps[0]), steps[1..]);
    }
  }

  // Queued keys are those asked and unanswered, every value is under the key it was asked for, and no chunk that may
  // come next ends the process.
  lemma EveryRunIsPaired(steps: seq<Step>)
    requires LegalRun(INITIAL, steps)
    ensures var w := Run(INITIAL, steps);
      var k := Arrived(w.replies, w.got);
      && k <= |w.replies| <= |w.sent|
      && w.st.queue == w.sent[k..] && w.st.buf == Pending(w.replies, w.got)
      && w.st.stored == w.earlier + Entries(w.sent, w.replies[..k])
      && w.st.output == Commands(w.sent)
      && forall chunk :: Legal(w, Receive(chunk)) ==> Received(w.st, chunk).1 == Runs
  {
    hide Received, Legal, After, Entries, Commands;
    FreshIsPaired(INITIAL.st);
    RunKeepsPairing(INITIAL, steps);
    var w := Run(INITIAL, steps);
    forall chunk | Legal(w, Receive(chunk)) ensures Received(w.st, chunk).1 == Runs {
      ReceiveKeepsPairing(w, chunk);
    }
  }

  // ---------------------------------------------------------------- every exchange is a run

  function Asks(keys: seq<bytes>): seq<Step> {
    if keys == [] then [] else [Ask(keys[0], true)] + Asks(keys[1..])
  }

  function Answers(ms: seq<Message>): seq<Step> {
    if ms == [] then [] else [Answer(ms[0])] + Answers(ms[1..])
  }

  function Receives(chunks: seq<bytes>): seq<Step> {
    if chunks == [] then [] else [Receive(chunks[0])] + Receives(chunks[1..])
  }

  lemma {:induction false} AskingRuns(w: World, keys: seq<bytes>)
    requires w.st.open && |w.st.queue| + |keys| <= 4095
    ensures LegalRun(w, Asks(keys))
    ensures var v := Run(w, Asks(keys));
      v == w.(st := w.st.(queue := w.st.queue + keys, output := v.st.output), sent := w.sent + keys)
    decreases |keys|
  {
    hide Command;
    if keys == [] {
      assert w.sent + keys == w.sent && w.st.queue + keys == w.st.queue;
    } else {
      AskingRuns(After(w, Ask(keys[0], true)), keys[1..]);
      assert w.sent + [keys[0]] + keys[1..] == w.sent + keys;
      assert w.st.queue + [keys[0]] + keys[1..] == w.st.queue + keys;
      assert Asks(keys)[1..] == Asks(keys[1..]);
    }
  }

  lemma {:induction false} AnsweringRuns(w: World, ms: seq<Message>)
    requires w.st.open && |w.replies| + |ms| <= |w.sent| && forall m <- ms :: IsAnswer(m)
    ensures LegalRun(w, Answers(ms)) && Run(w, Answers(ms)) == w.(replies := w.replies + ms)
    decreases |ms|
  {
    hide IsAnswer;
    if ms == [] {
      assert w.replies + ms == w.replies;
    } else {
      assert ms[0] in ms;
      AnsweringRuns(After(w, Answer(ms[0])), ms[1..]);
      assert w.replies + [ms[0]] + ms[1..] == w.replies + ms;
      assert Answers(ms)[1..] == Answers(ms[1..]);
    }
  }

  lemma {:induction false} ReceivingRuns(w: World, chunks: seq<bytes>)
    requires Paired(w) && w.st.open && w.got + Concat(chunks) <= EncodeAll(w.replies)
    requires forall c <- chunks :: |c| <= MAX_READ
    ensures LegalRun(w, Receives(chunks))
    ensures var v := Run(w, Receives(chunks));
      Paired(v) && v == w.(st := v.st, got := w.got + Concat(chunks)) && v.st.open
    decreases |chunks|
  {
    hide Paired, Received, EncodeAll;
    if chunks == [] {
      assert w.got + Concat(chunks) == w.got;
    } else {
      var got := w.got + chunks[0];
      assert chunks[0] in chunks;
      assert got + Concat(chunks[1..]) == w.got + Concat(chunks);
      assert got == (w.got + Concat(chunks))[..|got|];
      ReceiveKeepsPairing(w, chunks[0]);
      ReceivingRuns(After(w, Receive(chunks[0])), chunks[1..]);
      assert Receives(chunks)[1..] == Receives(chunks[1..]);
    }
  }

  // On a new connection up to 4095 keys are asked for, and answers to the first of them come in, in any chunks.
  function Exchange(keys: seq<bytes>, ms: seq<Message>, chunks: seq<bytes>): seq<Step> {
    [Close, Open] + (Asks(keys) + Answers(ms) + Receives(chunks))
  }

  // After any run this may happen, and it stores each answer under its key, leaving the other keys queued.
  lemma ExchangeStores(before: seq<Step>, keys: seq<bytes>, ms: seq<Message>, chunks: seq<bytes>)
    requires LegalRun(INITIAL, before) && |ms| <= |keys| <= 4095
    requires forall m <- ms :: WellFormed(m) && |Encode(m)| <= MAX_READ && (m.Notice? ==> |m.text| > 3)
    requires Concat(chunks) == EncodeAll(ms) && forall c <- chunks :: |c| <= MAX_READ
    ensures var steps := before + Exchange(keys, ms, chunks);
      && LegalRun(INITIAL, steps)
      && Run(INITIAL, steps).st
         == State(keys[|ms|..], [], Run(INITIAL, before).st.stored + Entries(keys, ms), true, Commands(keys))
  {
    hide Encode, WellFormed, Commands, Entries;
    var w := Run(INITIAL, before);
    RunSplits(INITIAL, before, Exchange(keys, ms, chunks));
    Exchanged(w, keys, ms, chunks);
  }

  function Opened(stored: seq<Entry>): World {
    World(State([], [], stored, true, []), [], [], [], stored)
  }

  lemma OpenedAgain(w: World)
    ensures Legal(w, Close) && Legal(After(w, Close), Open)
    ensures After(After(w, Close), Open) == Opened(w.st.stored) && Paired(Opened(w.st.stored))
  {
    hide Paired, Asked, Received;
    FreshIsPaired(Closed(w.st));
    OpenKeepsPairing(After(w, Close));
  }

  lemma AskedAndAnswered(u: World, keys: seq<bytes>, ms: seq<Message>)
    requires u == Opened(u.earlier) && Paired(u)
    requires |ms| <= |keys| <= 4095 && forall m <- ms :: IsAnswer(m)
    ensures LegalRun(u, Asks(keys) + Answers(ms))
    ensures var v := Run(u, Asks(keys) + Answers(ms));
      Paired(v) && v == World(v.st, keys, ms, [], u.earlier) && v.st.open
  {
    hide IsAnswer, Paired, LegalRun, Run;
    AskingRuns(u, keys);
    var v := Run(u, Asks(keys));
    assert [] + keys == keys && [] + ms == ms;
    AnsweringRuns(v, ms);
    RunSplits(u, Asks(keys), Answers(ms));
    RunKeepsPairing(u, Asks(keys) + Answers(ms));
  }

  lemma AllArrived(w: World)
    requires Paired(w) && w.got == EncodeAll(w.replies)
    ensures w.st.queue == w.sent[|w.replies|..] && w.st.buf == []
    ensures w.st.stored == w.earlier + Entries(w.sent, w.replies) && w.st.output == Commands(w.sent)
  {
    hide Encode, Commands, Entries, IsAnswer;
    StreamEnds(w.replies);
    assert w.replies[..|w.replies|] == w.replies;
  }

  lemma Exchanged(w: World, keys: seq<bytes>, ms: seq<Message>, chunks: seq<bytes>)
    requires |ms| <= |keys| <= 4095 && forall m <- ms :: IsAnswer(m)
    requires Concat(chunks) == EncodeAll(ms) && forall c <- chunks :: |c| <= MAX_READ
    ensures LegalRun(w, Exchange(keys, ms, chunks))
    ensures Run(w, Exchange(keys, ms, chunks)).st
         == State(keys[|ms|..], [], w.st.stored + Entries(keys, ms), true, Commands(keys))
  {
    hide Paired, LegalRun, Run, Legal, After, EncodeAll, Commands, Entries, IsAnswer, Concat, Asks, Answers, Receives;
    var u := Opened(w.st.stored);
    OpenedAgain(w);
    TwoSteps(w, Close, Open, Asks(keys) + Answers(ms) + Receives(chunks));
    AskedAndAnswered(u, keys, ms);
    RunSplits(u, Asks(keys) + Answers(ms), Receives(chunks));
    var v := Run(u, Asks(keys) + Answers(ms));
    assert [] + Concat(chunks) == EncodeAll(ms);
    ReceivingRuns(v, chunks);
    AllArrived(Run(v, Receives(chunks)));
  }

  // ---------------------------------------------------------------- what a longer reply does

  function ReceivedAll(st: State, chunks: seq<bytes>): (State, Fate)
    decreases |chunks|
  {
    if chunks == [] then (st, Runs)
    else
      var (t, fate) := Received(st, chunks[0]);
      if fate != Runs then (t, fate) else ReceivedAll(t, chunks[1..])
  }

  // With n bytes of a reply saved, a chunk fills the buffer before the last one, and none after it starts like
  // a reply.
  predicate LostFrom(n: nat, chunks: seq<bytes>)
    decreases |chunks|
  {
    && chunks != []
    && var s := n + |chunks[0]|;
       if s < MAX_READ then LostFrom(s, chunks[1..])
       else |chunks| > 1 && forall c <- chunks[1..] :: c != [] && StartsNothing(c[0])
  }

  lemma NothingReceived(st: State, chunk: bytes)
    requires st.buf == [] && chunk != [] && StartsNothing(chunk[0])
    ensures Received(st, chunk) == (st, Runs)
  {
    assert st.(buf := []) == st;
    assert StrCopy([]) == [] by { StrCopyWhole([]); }
  }

  lemma {:induction false} NothingReceivedAll(st: State, chunks: seq<bytes>)
    requires st.buf == [] && forall c <- chunks :: c != [] && StartsNothing(c[0])
    ensures ReceivedAll(st, chunks) == (st, Runs)
    decreases |chunks|
  {
    hide Received;
    if chunks != [] {
      assert chunks[0] in chunks;
      NothingReceived(st, chunks[0]);
      assert forall c <- chunks[1..] :: c in chunks;
      NothingReceivedAll(st, chunks[1..]);
    }
  }

  // Part of a reply on top of its saved beginning: it is saved too, or all of it is lost.
  lemma BeginningReceived(st: State, m: Message, chunk: bytes)
    requires WellFormed(m) && st.buf + chunk < Encode(m) && |st.buf| < MAX_READ && chunk != [] && |chunk| <= MAX_READ
    ensures var s := st.buf + chunk;
      Received(st, chunk) == (st.(buf := if |s| < MAX_READ then s else []), Runs)
  {
    hide ParseOne, WellFormed, Encode;
    var s := st.buf + chunk;
    ProperPrefixWaits(m, s);
    MessageClean(m);
    assert 0 !in s && 0 !in st.buf && 0 !in chunk by {
      assert forall i :: 0 <= i < |s| ==> s[i] == Encode(m)[i];
      assert forall i :: 0 <= i < |st.buf| ==> st.buf[i] == s[i];
      assert forall i :: 0 <= i < |chunk| ==> chunk[i] == s[|st.buf| + i];
    }
    StrCopyWhole(st.buf);
    StrCopyWhole(chunk);
    StrCopyWhole(s);
    assert Merged(st.buf, chunk) == s;
  }

  lemma {:induction false} LongReplyLost(st: State, m: Message, chunks: seq<bytes>)
    requires WellFormed(m) && |Encode(m)| > MAX_READ && st.buf + Concat(chunks) == Encode(m) && |st.buf| < MAX_READ
    requires LostFrom(|st.buf|, chunks) && forall c <- chunks :: c != [] && |c| <= MAX_READ
    ensures ReceivedAll(st, chunks) == (st.(buf := []), Runs)
    decreases |chunks|
  {
    hide Received, StartsNothing, WellFormed, Encode;
    var (c, rest) := (chunks[0], chunks[1..]);
    var s := st.buf + c;
    assert st.buf + Concat(chunks) == s + Concat(rest);
    if |s| < MAX_READ {
      BeginningReceived(st, m, c);
      LongReplyLost(st.(buf := s), m, rest);
    } else {
      assert Concat(rest) == rest[0] + Concat(rest[1..]);
      BeginningReceived(st, m, c);
      NothingReceivedAll(st.(buf := []), rest);
    }
  }

  lemma OneReceived(st: State, m: Message)
    requires st.buf == [] && st.queue != [] && IsAnswer(m)
    ensures Received(st, Encode(m)) == (st.(queue := st.queue[1..], stored := st.stored + Entries(st.queue, [m])), Runs)
  {
    hide FeedOne, EventsOf, Received, Encode, IsAnswer, Entries;
    StreamEnds([m]);
    assert EncodeAll([m]) == Encode(m) + EncodeAll([m][1..]) == Encode(m);
    assert [] + Encode(m) == Encode(m);
    FitsIn(m);
    NewReplies([m], [], Encode(m));
    assert [m][0..1] == [m];
    ReceiveReplies(st, Encode(m), [m], []);
    assert st.(queue := st.queue[1..], buf := [], stored := st.stored + Entries(st.queue, [m]))
        == st.(queue := st.queue[1..], stored := st.stored + Entries(st.queue, [m]));
  }

  lemma FitsIn(m: Message)
    requires IsAnswer(m)
    ensures |Encode(m)| <= MAX_READ
  {
    hide Encode;
  }

  // A reply too long for the buffer leaves its key queued, and the next value is stored under that key, however
  // the reply is split, when no chunk after the one that fills the buffer starts like a reply.
  lemma LongReplyMispairs(st: State, m: Message, chunks: seq<bytes>, next: Message)
    requires st.buf == [] && st.queue != []
    requires WellFormed(m) && |Encode(m)| > MAX_READ && Concat(chunks) == Encode(m)
    requires LostFrom(0, chunks) && forall c <- chunks :: c != [] && |c| <= MAX_READ
    requires IsAnswer(next) && next.Hash?
    ensures ReceivedAll(st, chunks) == (st, Runs)
    ensures Received(st, Encode(next))
         == (st.(queue := st.queue[1..], stored := st.stored + [(st.queue[0], Overlay(map[], next.pairs))]), Runs)
  {
    hide FeedOne, Received, Encode, IsAnswer, WellFormed;
    assert st.buf + Concat(chunks) == Concat(chunks);
    LongReplyLost(st, m, chunks);
    OneReceived(st, next);
    EntriesOne(st.queue, next);
  }

  lemma EntriesOne(keys: seq<bytes>, m: Message)
    requires keys != [] && m.Hash?
    ensures Entries(keys, [m]) == [(keys[0], Overlay(map[], m.pairs))]
  {
    hide Overlay;
    assert [m][1..] == [];
    assert Entries(keys[1..], []) == [];
  }

  lemma EncodeOne(name: bytes, value: bytes)
    ensures Encode(Hash([(name, value)])) == [STAR] + Decimal(2) + CRLF + (EncodeItem(name) + EncodeItem(value))
  {
    hide Decimal, EncodeItem;
    var pairs := [(name, value)];
    assert pairs[1..] == [];
    assert EncodePairs(pairs) == EncodeItem(name) + EncodeItem(value) + [];
  }

  // There are such replies: a single field with a long value, in two chunks.
  lemma LongReplyExists() returns (m: Message, chunks: seq<bytes>)
    ensures WellFormed(m) && |Encode(m)| > MAX_READ && Concat(chunks) == Encode(m)
    ensures LostFrom(0, chunks) && forall c <- chunks :: c != [] && |c| <= MAX_READ
  {
    hide Decimal, EncodePairs;
    var value: bytes := seq(MAX_READ, _ => 97);
    m := Hash([([97], value)]);
    EncodeOne([97], value);
    ShortNumeral(2);
    ShortNumeral(1);
    ShortNumeral(MAX_READ);
    var head := [STAR] + Decimal(2) + CRLF + EncodeItem([97]) + [DOLLAR] + Decimal(MAX_READ) + CRLF;
    assert Encode(m) == head + value + CRLF;
    assert Encode(m)[MAX_READ] == value[MAX_READ - |head|];
    chunks := TwoChunks(Encode(m));
  }

  lemma TwoChunks(e: bytes) returns (chunks: seq<bytes>)
    requires MAX_READ < |e| <= 2 * MAX_READ && StartsNothing(e[MAX_READ])
    ensures Concat(chunks) == e && LostFrom(0, chunks) && forall c <- chunks :: c != [] && |c| <= MAX_READ
  {
    var (first, second) := (e[..MAX_READ], e[MAX_READ..]);
    chunks := [first, second];
    var last: seq<bytes> := [second];
    assert chunks[1..] == last && Concat(last) == second + Concat(last[1..]) == second;
    assert first + second == e;
  }

  lemma ShortNumeral(n: nat)
    requires n <= MAX_READ
    ensures |Decimal(n)| <= 6
  {
    assert Pow10(3) == 1000;
    assert Pow10(6) == 1000000;
    DecimalLength(n, 6);
  }
}
