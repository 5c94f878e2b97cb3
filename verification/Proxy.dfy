/** The connection that asks the slave for values: queries go out, replies come back in chunks. */
module Proxy {
  import opened Bytes
  import opened Reply
  import Q = CirQueue

  // A stored value and the key it was stored under.
  type Entry = (bytes, Object)

  // The keys asked for and not answered, the saved tail of the input, what was stored,
  // whether the connection is open and what was written to it.
  datatype State = State(queue: seq<bytes>, buf: bytes, stored: seq<Entry>, open: bool, output: bytes)

  const HGETALL: bytes := [104, 103, 101, 116, 97, 108, 108, 32]   // "hgetall "

  function Command(key: bytes): bytes {
    HGETALL + StrCopy(key) + CRLF
  }

  // A reply answers the oldest key; a value nobody asked for ends the process.
  function Handle(s: State, e: Event): (State, Fate) {
    match e
    case Line(pops) => (if pops then s.(queue := Q.Popped(s.queue)) else s, Runs)
    case Array(o) =>
      if s.queue == [] then (s, Exits)
      else (s.(queue := s.queue[1..], stored := s.stored + [(s.queue[0], o)]), Runs)
  }

  function HandleAll(s: State, events: seq<Event>): (State, Fate)
    decreases |events|
  {
    if events == [] then (s, Runs)
    else
      var (t, fate) := Handle(s, events[0]);
      if fate != Runs then (t, fate) else HandleAll(t, events[1..])
  }

  // The replies in s handled in order, up to the one that ends the process if there is one.
  function Parsed(st: State, s: bytes): (State, Fate) {
    var o := ParseAll(s);
    var (t, fate) := HandleAll(st, o.events);
    if fate != Runs then (t, fate)
    else match o.status
      case Exited => (t, Exits)
      case Broken => (t, Breaks)
      case Waiting => (if o.tail == [] then t else t.(buf := Saved(o.tail)), Runs)
      case Stopped => (t, Runs)
  }

  function Received(st: State, chunk: bytes): (State, Fate) {
    Parsed(st.(buf := []), Merged(st.buf, chunk))
  }

  // A query whose key does not fit is not sent, and a failed write closes everything.
  function Asked(st: State, key: bytes, written: bool): State {
    if |st.queue| == Q.QUE_SIZE - 1 || !st.open then st
    else if written then st.(queue := st.queue + [key], output := st.output + Command(key))
    else Closed(st)
  }

  function Closed(st: State): State {
    State([], [], st.stored, false, [])
  }

  // p has been acted on: r is what is left to parse if the loop goes on, None if it ends.
  predicate Acted(st: State, s: bytes, p: Parse, t: State, r: Option<bytes>, fate: Fate) {
    match p
    case Done(e, rest) => (t, fate) == Handle(st, e) && (fate == Runs ==> r == Some(rest))
    case More => t == st.(buf := Saved(s)) && r == None && fate == Runs
    case Stop => t == st && r == None && fate == Runs
    case Exit => t == st && fate == Exits
    case Undefined => t == st && fate == Breaks
  }

  lemma ActedParses(st: State, s: bytes, t: State, r: Option<bytes>, fate: Fate)
    requires s != [] && Acted(st, s, ParseOne(s), t, r, fate)
    ensures Parsed(st, s) == if fate == Runs && r.Some? then Parsed(t, r.value) else (t, fate)
  {
    hide ParseOne;
    if ParseOne(s).Done? {
      var o := ParseAll(s);
      assert o.events[0] == ParseOne(s).event && o.events[1..] == ParseAll(ParseOne(s).rest).events;
    }
  }

  lemma FindStep(s: bytes, b: byte)
    ensures Find(s, b) == if s == [] || s[0] == b then 0 else 1 + Find(s[1..], b)
  {
  }

  lemma SlicesOfSlice(s: bytes, at: nat, n: nat)
    requires at + n + 4 <= |s|
    ensures s[at..][2..n + 2] == s[at + 2..at + 2 + n] && s[at..][n + 4..] == s[at + n + 4..]
  {
  }

  lemma EmptyParsed(st: State)
    ensures Parsed(st, []) == (st, Runs)
  {
  }

  // ---------------------------------------------------------------- libc

  lemma {:induction false} TextIs(s: bytes, n: nat)
    requires n <= |s| && 0 !in s[..n] && (n < |s| ==> s[n] == 0)
    ensures Text(s) == s[..n]
    decreases n
  {
    if n > 0 {
      assert 0 !in s[1..][..n - 1] by { assert forall x <- s[1..][..n - 1] :: x in s[..n]; }
      assert s[0] in s[..n];
      TextIs(s[1..], n - 1);
      assert s[..n] == [s[0]] + s[1..][..n - 1];
    }
  }

  // strncpy of s, the n bytes of src at from, to the end of done, the first bytes of dst.
  method StrNCopy(dst: array<byte>, at: nat, src: array<byte>, from: nat, n: nat, ghost done: bytes, ghost s: bytes)
    requires dst != src && at + n <= dst.Length && from + n <= src.Length
    requires dst[..at] == done && src[from..from + n] == s
    modifies dst
    ensures dst[..at + n] == done + StrCopy(s) && dst[at + n..] == old(dst[at + n..])
  {
    var i := 0;
    while i < n && src[from + i] != 0
      invariant i <= n && src[from..from + n] == s
      invariant 0 !in s[..i] && dst[at..at + i] == s[..i]
      invariant dst[..at] == done && dst[at + n..] == old(dst[at + n..])
    {
      dst[at + i] := src[from + i];
      assert s[i] == src[from..from + n][i] == src[from + i];
      i := i + 1;
    }
    assert i < n ==> src[from..from + n][i] == 0;
    TextIs(s, i);
    ghost var k := i;
    while i < n
      invariant k <= i <= n && dst[at..at + k] == s[..k] && forall j :: at + k <= j < at + i ==> dst[j] == 0
      invariant dst[..at] == done && dst[at + n..] == old(dst[at + n..])
    {
      dst[at + i] := 0;
      i := i + 1;
    }
    assert dst[at..at + n] == s[..k] + seq(n - k, _ => 0);
    assert dst[..at + n] == dst[..at] + dst[at..at + n];
  }

  method Literal(s: bytes) returns (a: array<byte>)
    requires 0 !in s
    ensures fresh(a) && a[..] == s && StrCopy(s) == s
  {
    a := new byte[|s|](i requires 0 <= i < |s| => s[i]);
    StrCopyWhole(s);
  }

  // ---------------------------------------------------------------- the connection

  class Connection {
    const buf: array<byte>
    var bufLen: nat
    const queue: Q.CirQueue
    var stored: seq<Entry>
    var open: bool
    var output: bytes

    ghost predicate Valid()
      reads this, queue, queue.data
    {
      queue.Valid() && buf.Length == MAX_READ && bufLen < MAX_READ
    }

    ghost function St(): State
      requires bufLen <= buf.Length
      reads this, buf, queue
    {
      State(queue.contents, buf[..bufLen], stored, open, output)
    }

    constructor ()
      ensures Valid() && St() == State([], [], [], false, [])
      ensures buf.Length == 10240 && fresh(buf) && fresh(queue) && fresh(queue.data)
    {
      buf := new byte[MAX_READ];
      bufLen, stored, open, output := 0, [], false, [];
      queue := new Q.CirQueue();
    }

    method SaveToBuf(data: array<byte>, len: nat, start: nat)
      requires Valid() && start <= len <= data.Length && data != buf
      modifies this`bufLen, buf
      ensures Valid() && St() == old(St()).(buf := Saved(data[start..len]))
    {
      bufLen := len - start;
      if bufLen < MAX_READ {
        StrNCopy(buf, 0, data, start, bufLen, [], data[start..len]);
      } else {
        bufLen := 0;
      }
    }

    // The digits from index on, and where they end.
    method ReadNumber(data: array<byte>, len: nat, start: nat) returns (n: int, index: nat)
      requires start <= len <= data.Length
      ensures start <= index <= len
      ensures ReadNum(data[start..len], 0) == if index < len then Numeral(n, data[index..len]) else Unfinished
    {
      n, index := 0, start;
      while index < len && data[index] != CR
        invariant start <= index <= len
        invariant ReadNum(data[start..len], 0) == ReadNum(data[index..len], n)
      {
        assert data[index..len][1..] == data[index + 1..len];
        n := n * 10 + Signed(data[index]) - ZERO;
        index := index + 1;
      }
    }

    // The item at start: its text, and where the next one starts, or why there is no item.
    method TakeItem(data: array<byte>, len: nat, start: nat, last: bool)
      returns (text: Option<bytes>, next: nat, why: Option<Parse>)
      requires start < len <= data.Length
      ensures next <= len
      ensures ReadItem(data[start..len], last) == if why == None then Item(text, data[next..len]) else NoItem(why.value)
    {
      hide ReadNum, Text;
      text, next, why := None, start, None;
      if data[start] != DOLLAR {
        why := Some(Exit);
        return;
      }
      assert data[start..len][1..] == data[start + 1..len];
      var itemLen, i := ReadNumber(data, len, start + 1);
      if i >= len {
        why := Some(More);
        return;
      }
      if itemLen < 0 {
        why := Some(Undefined);
        return;
      }
      var itemStart := i + 2;
      i := i + itemLen + 4;
      if i > len || (i == len && !last) {
        why := Some(More);
        return;
      }
      var item := data[itemStart..itemStart + itemLen];
      SlicesOfSlice(data[..len], itemStart - 2, itemLen);
      assert data[..len][itemStart - 2..] == data[itemStart - 2..len];
      assert data[..len][itemStart..itemStart + itemLen] == item && data[..len][i..] == data[i..len];
      text := if itemLen > 0 then Some(Text(item)) else None;
      next := i;
    }

    method PopHandle(fields: Object) returns (fate: Fate)
      requires Valid()
      modifies this`stored, queue, queue.data
      ensures Valid() && (St(), fate) == Handle(old(St()), Array(fields))
    {
      var e := queue.Pop();
      if e == None {
        return Exits;
      }
      stored := stored + [(e.value, fields)];
      return Runs;
    }

    method ParseArray(data: array<byte>, len: nat, start: nat) returns (index: int, fate: Fate)
      requires Valid() && start < len <= data.Length && data != buf
      modifies this`bufLen, this`stored, buf, queue, queue.data
      ensures Valid() && -1 <= index <= len
      ensures Acted(old(St()), data[start..len], Reply.ParseArray(data[start..len]), St(),
                    if index == -1 then None else Some(data[index..len]), fate)
    {
      hide ReadItem, ReadNum, StrCopy;
      var n, i := ReadNumber(data, len, start + 1);
      assert data[start..len][1..] == data[start + 1..len];
      if i >= len || i + 2 > len || (i + 2 == len && n > 0) {
        SaveToBuf(data, len, start);
        return -1, Runs;
      }
      assert data[i..len][2..] == data[i + 2..len];
      i := i + 2;
      var f := Fields(None, map[]);
      while n > 0
        invariant 0 <= i <= len && (n > 0 ==> i < len)
        invariant Valid() && St() == old(St())
        invariant Reply.ParseArray(data[start..len]) == ParseItems(data[i..len], n, f)
      {
        var text, next, why := TakeItem(data, len, i, n == 1);
        if why == Some(More) {
          SaveToBuf(data, len, start);
          return -1, Runs;
        } else if why == Some(Exit) {
          return -1, Exits;
        } else if why != None {
          return -1, Breaks;
        }
        if text != None {
          if n % 2 == 0 {
            f := f.(key := text);
          } else if f.key == None {
            return -1, Breaks;
          } else {
            f := Fields(None, f.fields[f.key.value := text.value]);
          }
        }
        i := next;
        n := n - 1;
      }
      fate := PopHandle(f.fields);
      return i, fate;
    }

    method ParseSimple(data: array<byte>, len: nat, start: nat) returns (index: int, fate: Fate)
      requires Valid() && start < len <= data.Length && data != buf
      modifies this`bufLen, buf, queue, queue.data
      ensures Valid() && -1 <= index <= len
      ensures Acted(old(St()), data[start..len], Reply.ParseSimple(data[start..len]), St(),
                    if index == -1 then None else Some(data[index..len]), fate)
    {
      hide Find;
      fate := Runs;
      ghost var s := data[start..len];
      assert s[1..] == data[start + 1..len];
      index := start + 1;
      while index < len && data[index] != LF
        invariant start + 1 <= index <= len && Valid() && St() == old(St()) && data[start..len] == s
        invariant Find(data[start + 1..len], LF) == index - start - 1 + Find(data[index..len], LF)
      {
        assert data[index..len][1..] == data[index + 1..len];
        FindStep(data[index..len], LF);
        index := index + 1;
      }
      FindStep(data[index..len], LF);
      if index < len {
        if index - start > 5 {
          var _ := queue.Pop();
        }
        index := index + 1;
        assert s[index - start..] == data[index..len];
      } else {
        SaveToBuf(data, len, start);
        index := -1;
      }
    }

    // The saved tail and the chunk, when both fit.
    method Merge(chunk: array<byte>, len: nat) returns (data: array<byte>, n: nat)
      requires Valid() && len <= chunk.Length && chunk != buf
      modifies this`bufLen
      ensures Valid() && St() == old(St()).(buf := [])
      ensures n <= data.Length && data != buf && data[..n] == Merged(old(St()).buf, chunk[..len])
    {
      hide StrCopy;
      data, n := chunk, len;
      if bufLen > 0 {
        if bufLen + len < 2 * MAX_READ {
          n := bufLen + len;
          data := new byte[n];
          ghost var (tail, more) := (buf[..bufLen], chunk[..len]);
          StrNCopy(data, 0, buf, 0, bufLen, [], tail);
          assert data[..bufLen] == StrCopy(tail);
          StrNCopy(data, bufLen, chunk, 0, len, StrCopy(tail), more);
        }
        bufLen := 0;
      }
    }

    method ParseNext(data: array<byte>, len: nat, start: nat) returns (index: int, fate: Fate)
      requires Valid() && start < len <= data.Length && data != buf
      modifies this`bufLen, this`stored, buf, queue, queue.data
      ensures Valid() && -1 <= index <= len
      ensures fate == Runs && index >= 0 ==> index > start
      ensures Acted(old(St()), data[start..len], ParseOne(data[start..len]), St(),
                    if index == -1 then None else Some(data[index..len]), fate)
    {
      hide Reply.ParseArray, Reply.ParseSimple;
      index, fate := -1, Runs;
      if data[start] == STAR {
        index, fate := ParseArray(data, len, start);
      } else if data[start] == DOLLAR {
        fate := Breaks;
      } else if data[start] == MINUS || data[start] == PLUS || data[start] == COLON {
        index, fate := ParseSimple(data, len, start);
      }
    }

    method ParseReadData(chunk: array<byte>, len: nat) returns (fate: Fate)
      requires Valid() && len <= chunk.Length && chunk != buf
      modifies this`bufLen, this`stored, buf, queue, queue.data
      ensures Valid() && (St(), fate) == Received(old(St()), chunk[..len])
    {
      hide ParseOne, Parsed, Acted, Merged;
      var data, n := Merge(chunk, len);
      ghost var (st, s) := (St(), data[..n]);
      var index: int := 0;
      fate := Runs;
      assert data[0..n] == s;
      while fate == Runs && 0 <= index < n
        invariant Valid() && -1 <= index <= n
        invariant Parsed(st, s) == if fate == Runs && index >= 0 then Parsed(St(), data[index..n]) else (St(), fate)
        decreases fate == Runs, index >= 0, n - index
      {
        ghost var (was, rest) := (St(), data[index..n]);
        index, fate := ParseNext(data, n, index);
        ActedParses(was, rest, St(), if index == -1 then None else Some(data[index..n]), fate);
      }
      assert index == n ==> data[index..n] == [];
      EmptyParsed(St());
    }

    method CloseFd()
      requires Valid()
      modifies this`open, this`output, this`bufLen, queue, queue.data
      ensures Valid() && St() == Closed(old(St()))
    {
      open, output := false, [];
      bufLen := 0;
      queue.Clear();
    }

    // ok says whether the slave is reached and its descriptor registered; otherwise everything is closed.
    method Connect(ok: bool)
      requires Valid()
      modifies this`open, this`output, this`bufLen, queue, queue.data
      ensures Valid()
      ensures St() == if old(open) then old(St()) else if ok then old(St()).(open := true) else Closed(old(St()))
    {
      if !open {
        if !ok {
          CloseFd();
        } else {
          open := true;
        }
      }
    }

    // ok says whether the socket takes the bytes.
    method WriteData(data: array<byte>, ok: bool) returns (written: bool)
      requires Valid()
      modifies this`open, this`output, this`bufLen, queue, queue.data
      ensures Valid() && written == (old(open) && ok)
      ensures St() == if !old(open) then old(St())
                      else if ok then old(St()).(output := old(output) + data[..])
                      else Closed(old(St()))
    {
      if !open {
        return false;
      }
      if !ok {
        CloseFd();
        return false;
      }
      output := output + data[..];
      return true;
    }

    method MakeCommand(key: array<byte>) returns (cmd: array<byte>)
      ensures fresh(cmd) && cmd[..] == Command(key[..])
    {
      hide StrCopy;
      var n := key.Length;
      cmd := new byte[8 + 2 + n];
      var hgetall := Literal(HGETALL);
      var crlf := Literal(CRLF);
      ghost var (k, start) := (key[..], HGETALL + StrCopy(key[..]));
      StrNCopy(cmd, 0, hgetall, 0, 8, [], HGETALL);
      assert cmd[..8] == HGETALL;
      StrNCopy(cmd, 8, key, 0, n, HGETALL, k);
      StrNCopy(cmd, 8 + n, crlf, 0, 2, start, CRLF);
      assert cmd[..8 + n + 2] == cmd[..];
    }

    method QueryKey(key: array<byte>, ok: bool)
      requires Valid()
      modifies this`open, this`output, this`bufLen, queue, queue.data
      ensures Valid() && St() == Asked(old(St()), key[..], ok)
    {
      var full := queue.IsFull();
      if full {
        return;
      }
      var cmd := MakeCommand(key);
      var written := WriteData(cmd, ok);
      if written {
        queue.Push(key[..]);
      }
    }
  }
}
