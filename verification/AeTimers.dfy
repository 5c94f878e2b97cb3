/** The timers of the event loop, and the pass that fires them. */
module AeTimers {
  // A time in seconds and milliseconds.
  datatype Time = Time(sec: int, ms: int)

  datatype Timer = Timer(id: int, when: Time)

  predicate Due(t: Timer, now: Time) {
    now.sec > t.when.sec || (now.sec == t.when.sec && now.ms >= t.when.ms)
  }

  // C's division and remainder.
  function TruncDiv(a: int, b: int): int
    requires b > 0
  {
    if a >= 0 then a / b else -((-a) / b)
  }

  function TruncMod(a: int, b: int): int
    requires b > 0
  {
    a - b * TruncDiv(a, b)
  }

  // Both round towards zero: the remainder has the sign of the dividend.
  lemma Truncates(a: int, b: int)
    requires b > 0
    ensures a == b * TruncDiv(a, b) + TruncMod(a, b) && -b < TruncMod(a, b) < b
    ensures (a >= 0 ==> TruncMod(a, b) >= 0) && (a <= 0 ==> TruncMod(a, b) <= 0)
  {
    var c := if a >= 0 then a else -a;
    assert c == b * (c / b) + c % b;
    assert b * -(c / b) == -(b * (c / b));
  }

  function AddMilliseconds(milliseconds: int, now: Time): Time {
    var (sec, ms) := (now.sec + TruncDiv(milliseconds, 1000), now.ms + TruncMod(milliseconds, 1000));
    if ms >= 1000 then Time(sec + 1, ms - 1000) else Time(sec, ms)
  }

  // A timer is due as soon as its period is over, to the millisecond.
  lemma DueWhen(id: int, period: nat, now: Time, later: Time)
    requires 0 <= now.ms < 1000 && 0 <= later.ms < 1000
    ensures 0 <= AddMilliseconds(period, now).ms < 1000
    ensures Due(Timer(id, AddMilliseconds(period, now)), later) <==>
      1000 * later.sec + later.ms >= 1000 * now.sec + now.ms + period
  {
    Truncates(period, 1000);
  }

  // A timer put off is due again at the same moment exactly if its period is not positive.
  lemma PutOff(id: int, period: int, now: Time)
    requires 0 <= now.ms < 1000
    ensures Due(Timer(id, AddMilliseconds(period, now)), now) <==> period <= 0
  {
  }

  const AE_NOMORE := -1

  // What a callback does to the timers, in order, and what it returns.
  datatype Action = Create(milliseconds: int) | Delete(id: int)
  datatype Callback = Callback(actions: seq<Action>, retval: int)

  // It stops its timer or asks for a later time, and it does not ask for another time once it has deleted its timer.
  predicate WellBehaved(id: int, c: Callback) {
    c.retval == AE_NOMORE || (c.retval > 0 && Delete(id) !in c.actions)
  }

  // Minus one stops a timer.  Any other callback behaves if the timer is not due again at once and still there.
  lemma BehavesIff(id: int, c: Callback, now: Time)
    requires 0 <= now.ms < 1000
    ensures WellBehaved(id, c) <==>
      c.retval == -1 || (!Due(Timer(id, AddMilliseconds(c.retval, now)), now) && Delete(id) !in c.actions)
  {
    PutOff(id, c.retval, now);
  }

  function Creates(actions: seq<Action>): nat {
    if actions == [] then 0
    else Creates(actions[..|actions| - 1]) + (if actions[|actions| - 1].Create? then 1 else 0)
  }

  // t is created by one of the actions, identifiers being counted from next on, and not deleted by a later one.
  predicate Made(actions: seq<Action>, next: int, now: Time, t: Timer) {
    && actions != []
    && var (init, last) := (actions[..|actions| - 1], actions[|actions| - 1]);
       match last
       case Create(ms) => t == Timer(next + Creates(init), AddMilliseconds(ms, now)) || Made(init, next, now, t)
       case Delete(id) => t.id != id && Made(init, next, now, t)
  }

  lemma {:induction false} MadeIds(actions: seq<Action>, next: int, now: Time, t: Timer)
    requires Made(actions, next, now, t)
    ensures next <= t.id < next + Creates(actions)
    decreases |actions|
  {
    hide AddMilliseconds;
    var init := actions[..|actions| - 1];
    if Made(init, next, now, t) { MadeIds(init, next, now, t); }
  }

  lemma {:induction false} CreatesTwo(a: seq<Action>, b: seq<Action>)
    ensures Creates(a + b) == Creates(a) + Creates(b)
    decreases |b|
  {
    if b == [] {
      assert a + b == a;
    } else {
      assert (a + b)[..|a + b| - 1] == a + b[..|b| - 1];
      CreatesTwo(a, b[..|b| - 1]);
    }
  }

  // What two rows of actions make: the later ones may delete what the earlier ones made.
  lemma {:induction false} MadeTwo(a: seq<Action>, b: seq<Action>, next: int, now: Time, t: Timer)
    ensures Made(a + b, next, now, t)
       <==> Made(b, next + Creates(a), now, t) || (Made(a, next, now, t) && Delete(t.id) !in b)
    decreases |b|
  {
    hide AddMilliseconds;
    if b == [] {
      assert a + b == a;
    } else {
      var init := b[..|b| - 1];
      assert (a + b)[..|a + b| - 1] == a + init && b == init + [b[|b| - 1]];
      MadeTwo(a, init, next, now, t);
      CreatesTwo(a, init);
    }
  }

  function AllActions(fired: seq<int>, proc: int -> Callback): seq<Action> {
    if fired == [] then []
    else AllActions(fired[..|fired| - 1], proc) + proc(fired[|fired| - 1]).actions
  }

  lemma OneMoreFired(fired: seq<int>, id: int, proc: int -> Callback)
    ensures AllActions(fired + [id], proc) == AllActions(fired, proc) + proc(id).actions
  {
    var more := fired + [id];
    assert |more| == |fired| + 1 && more[|fired|] == id && more[..|fired|] == fired;
  }

  predicate Descending(ts: seq<Timer>) {
    forall i, j :: 0 <= i < j < |ts| ==> ts[i].id > ts[j].id
  }

  ghost predicate HasId(ts: seq<Timer>, id: int) {
    exists t :: t in ts && t.id == id
  }

  lemma RemoveAt(ts: seq<Timer>, i: nat)
    requires i < |ts| && Descending(ts)
    ensures var us := ts[..i] + ts[i + 1..];
      Descending(us) && forall t :: t in us <==> t in ts && t.id != ts[i].id
  {
    var us := ts[..i] + ts[i + 1..];
    assert forall k :: 0 <= k < |us| ==> us[k] == ts[if k < i then k else k + 1];
    forall t | t in ts && t.id != ts[i].id ensures t in us {
      var k :| 0 <= k < |ts| && ts[k] == t;
      assert us[if k < i then k else k - 1] == t;
    }
  }

  lemma ReplaceAt(ts: seq<Timer>, i: nat, when: Time)
    requires i < |ts| && Descending(ts)
    ensures var us := ts[i := Timer(ts[i].id, when)];
      Descending(us) && forall t :: t in us <==> t == Timer(ts[i].id, when) || (t in ts && t.id != ts[i].id)
  {
    var us := ts[i := Timer(ts[i].id, when)];
    assert us[i] in us;
    forall t | t in ts && t.id != ts[i].id ensures t in us {
      var k :| 0 <= k < |ts| && ts[k] == t;
      assert us[k] == t;
    }
  }

  // ---------------------------------------------------------------- what a pass does

  // A clock that has gone back makes every timer start from second zero.
  function Adjusted(ts: seq<Timer>, lastTime: int, now: Time): seq<Timer> {
    if now.sec < lastTime then seq(|ts|, i requires 0 <= i < |ts| => Timer(ts[i].id, Time(0, ts[i].when.ms))) else ts
  }

  lemma AdjustedKeeps(was: seq<Timer>, ts: seq<Timer>, lastTime: int, now: Time, bound: int)
    requires |ts| == |was| && forall k :: 0 <= k < |ts| ==> ts[k] == Timer(was[k].id, Time(0, was[k].when.ms))
    requires Descending(was) && now.sec < lastTime && forall t :: t in was ==> t.id < bound
    ensures ts == Adjusted(was, lastTime, now) && Descending(ts) && forall t :: t in ts ==> t.id < bound
  {
    forall t | t in ts ensures t.id < bound {
      var k :| 0 <= k < |ts| && ts[k] == t;
      assert was[k] in was;
    }
  }

  // Otherwise the timers stay as they are.
  lemma NotGoneBack(ts: seq<Timer>, lastTime: int, now: Time)
    ensures now.sec >= lastTime ==> Adjusted(ts, lastTime, now) == ts
    ensures |Adjusted(ts, lastTime, now)| == |ts| && forall k :: 0 <= k < |ts| ==> Adjusted(ts, lastTime, now)[k].id == ts[k].id
  {
  }

  // After the clock has gone back, every timer is due, unless it is still second zero.
  lemma GoneBack(ts: seq<Timer>, lastTime: int, now: Time, t: Timer)
    requires now.sec < lastTime && t in Adjusted(ts, lastTime, now)
    ensures Due(t, now) <==> now.sec > 0 || (now.sec == 0 && now.ms >= t.when.ms)
  {
  }

  ghost predicate DeletedBy(id: int, fired: seq<int>, proc: int -> Callback) {
    exists x :: x in fired && Delete(id) in proc(x).actions
  }

  // t is in the list once the timers in fired have fired: not deleted by any of their callbacks, and put off
  // by its period if it fired itself.
  ghost predicate Stays(start: seq<Timer>, fired: seq<int>, proc: int -> Callback, now: Time, t: Timer) {
    && !DeletedBy(t.id, fired, proc)
    && if t.id in fired then
         HasId(start, t.id) && proc(t.id).retval != AE_NOMORE && t.when == AddMilliseconds(proc(t.id).retval, now)
       else t in start
  }

  // t is in the list after te has fired.
  ghost predicate AfterFire(before: seq<Timer>, te: Timer, c: Callback, now: Time, t: Timer) {
    && Delete(t.id) !in c.actions
    && if t.id == te.id then c.retval != AE_NOMORE && t.when == AddMilliseconds(c.retval, now) else t in before
  }

  predicate Distinct(s: seq<int>) {
    forall i, j :: 0 <= i < j < |s| ==> s[i] != s[j]
  }

  ghost predicate DueId(start: seq<Timer>, now: Time, id: int) {
    exists t :: t in start && t.id == id && Due(t, now)
  }

  class TimerLoop {
    var timers: seq<Timer>    // from the head of the list on
    var nextId: int
    var lastTime: int
    ghost var calls: seq<int> // the timers whose callbacks have been called

    // Identifiers are unique and fall from the head of the list on.
    predicate Valid()
      reads this
    {
      Descending(timers) && forall t :: t in timers ==> t.id < nextId
    }

    constructor (now: int)
      ensures Valid() && timers == [] && nextId == 0 && lastTime == now && calls == []
    {
      timers, nextId, lastTime, calls := [], 0, now, [];
    }

    method CreateTimeEvent(milliseconds: int, now: Time) returns (id: int)
      requires Valid()
      modifies `timers, `nextId
      ensures Valid() && id == old(nextId) && nextId == old(nextId) + 1
      ensures timers == [Timer(id, AddMilliseconds(milliseconds, now))] + old(timers)
    {
      id := nextId;
      nextId := nextId + 1;
      timers := [Timer(id, AddMilliseconds(milliseconds, now))] + timers;
    }

    method DeleteTimeEvent(id: int) returns (ok: bool)
      requires Valid()
      modifies `timers
      ensures Valid() && ok == old(HasId(timers, id))
      ensures forall t :: t in timers <==> t in old(timers) && t.id != id
    {
      var i := 0;
      while i < |timers|
        invariant 0 <= i <= |timers| && forall k :: 0 <= k < i ==> timers[k].id != id
      {
        if timers[i].id == id {
          RemoveAt(timers, i);
          timers := timers[..i] + timers[i + 1..];
          return true;
        }
        i := i + 1;
      }
      return false;
    }

    // Writes the time of the timer with this identifier.
    method SetWhen(id: int, when: Time)
      requires Valid() && HasId(timers, id)
      modifies `timers
      ensures Valid()
      ensures forall t :: t in timers <==> t == Timer(id, when) || (t in old(timers) && t.id != id)
    {
      var i := 0;
      while timers[i].id != id
        invariant 0 <= i < |timers| && forall k :: 0 <= k < i ==> timers[k].id != id
        decreases |timers| - i
      {
        i := i + 1;
      }
      ReplaceAt(timers, i, when);
      timers := timers[i := Timer(id, when)];
    }

    // Calls the callback of a timer: timers it creates are newer than all there were.
    method RunProc(id: int, c: Callback, now: Time)
      requires Valid()
      modifies `timers, `nextId, `calls
      ensures Valid() && nextId == old(nextId) + Creates(c.actions) && calls == old(calls) + [id]
      ensures forall t: Timer {:trigger t in timers} :: t.id < old(nextId) ==> (t in timers <==> t in old(timers) && Delete(t.id) !in c.actions)
      ensures forall t: Timer {:trigger t in timers} :: t.id >= old(nextId) ==> (t in timers <==> Made(c.actions, old(nextId), now, t))
    {
      hide AddMilliseconds;
      calls := calls + [id];
      var k := 0;
      while k < |c.actions|
        invariant 0 <= k <= |c.actions| && Valid() && nextId == old(nextId) + Creates(c.actions[..k])
        invariant calls == old(calls) + [id]
        invariant forall t: Timer {:trigger t in timers} :: t.id < old(nextId) ==> (t in timers <==> t in old(timers) && Delete(t.id) !in c.actions[..k])
        invariant forall t: Timer {:trigger t in timers} :: t.id >= old(nextId) ==> (t in timers <==> Made(c.actions[..k], old(nextId), now, t))
      {
        Act(c.actions, k, now, old(nextId));
        k := k + 1;
      }
      assert c.actions[..k] == c.actions;
    }

    // The next action of a callback that started when the identifiers had got to start.
    method Act(actions: seq<Action>, k: nat, now: Time, ghost start: int)
      requires Valid() && k < |actions| && nextId == start + Creates(actions[..k])
      requires forall t: Timer {:trigger t in timers} :: t.id >= start ==> (t in timers <==> Made(actions[..k], start, now, t))
      modifies `timers, `nextId
      ensures Valid() && nextId == start + Creates(actions[..k + 1])
      ensures forall t: Timer {:trigger t in timers} :: t.id < start ==> (t in timers <==> t in old(timers) && actions[k] != Delete(t.id))
      ensures forall t: Timer {:trigger t in timers} :: t.id >= start ==> (t in timers <==> Made(actions[..k + 1], start, now, t))
    {
      hide AddMilliseconds;
      assert actions[..k + 1][..k] == actions[..k];
      match actions[k] {
        case Create(ms) => var _ := CreateTimeEvent(ms, now);
        case Delete(id) => var _ := DeleteTimeEvent(id);
      }
    }

    // Fires a due timer and puts it off or removes it.
    method Fire(te: Timer, now: Time, c: Callback)
      requires Valid() && te in timers && WellBehaved(te.id, c)
      modifies `timers, `nextId, `calls
      ensures Valid() && nextId == old(nextId) + Creates(c.actions) && calls == old(calls) + [te.id]
      ensures forall t: Timer {:trigger t in timers} :: t.id < old(nextId) ==> (t in timers <==> AfterFire(old(timers), te, c, now, t))
      ensures forall t: Timer {:trigger t in timers} :: t.id >= old(nextId) ==> (t in timers <==> Made(c.actions, old(nextId), now, t))
    {
      hide Made, Creates, AddMilliseconds;
      RunProc(te.id, c, now);
      if c.retval != AE_NOMORE {
        assert te in timers;
        SetWhen(te.id, AddMilliseconds(c.retval, now));
      } else {
        var _ := DeleteTimeEvent(te.id);
      }
    }

    // Makes every timer start from second zero when the clock has gone back.
    method AdjustTimers(now: Time)
      requires Valid()
      modifies `timers, `lastTime
      ensures Valid() && timers == Adjusted(old(timers), old(lastTime), now) && lastTime == now.sec
    {
      if now.sec < lastTime {
        var i := 0;
        ghost var (was, last) := (timers, lastTime);
        while i < |timers|
          invariant 0 <= i <= |timers| == |was|
          invariant forall k :: 0 <= k < i ==> timers[k] == Timer(was[k].id, Time(0, was[k].when.ms))
          invariant forall k :: i <= k < |was| ==> timers[k] == was[k]
        {
          timers := timers[i := Timer(timers[i].id, Time(0, timers[i].when.ms))];
          i := i + 1;
        }
        AdjustedKeeps(was, timers, last, now, nextId);
      }
      lastTime := now.sec;
    }

    // The clock stands still during the pass, and proc tells what each timer's callback does.
    method ProcessTimeEvents(now: Time, proc: int -> Callback) returns (processed: nat, ghost fired: seq<int>)
      requires Valid() && 0 <= now.ms < 1000 && forall id :: WellBehaved(id, proc(id))
      modifies this
      ensures Valid() && lastTime == now.sec && processed == |fired|
      ensures (forall i, j :: 0 <= i < j < |fired| ==> fired[i] != fired[j]) && calls == old(calls) + fired
      ensures var start := Adjusted(old(timers), old(lastTime), now);
        && (forall id :: id in fired ==> DueId(start, now, id))
        && (forall t :: t in start && Due(t, now) ==> t.id in fired || DeletedBy(t.id, fired, proc))
        && (forall t: Timer {:trigger t in timers} :: t.id < old(nextId) ==> (t in timers <==> Stays(start, fired, proc, now, t)))
      ensures nextId == old(nextId) + Creates(AllActions(fired, proc))
      ensures forall t: Timer {:trigger t in timers} ::
        t.id >= old(nextId) ==> (t in timers <==> Made(AllActions(fired, proc), old(nextId), now, t))
    {
      hide AddMilliseconds, Adjusted, Creates, Made, AllActions, Passing, Grown, WellBehaved, Due, Descending;
      AdjustTimers(now);
      ghost var start := timers;
      processed, fired := 0, [];
      ghost var (next, before) := (nextId, calls);
      var maxId := nextId - 1;
      ghost var pending := DueIds(start, now);
      PassStarts(proc, now);
      var i := 0;
      while i < |timers|
        invariant 0 <= i <= |timers| && Valid() && next == maxId + 1 && processed == |fired| && lastTime == now.sec
        invariant Passing(start, fired, pending, proc, now, next) && Grown(fired, proc, now, next) && calls == before + fired
        invariant forall k :: 0 <= k < i ==> timers[k].id > maxId || !Due(timers[k], now)
        decreases pending, |timers| - i
      {
        var te := timers[i];
        if te.id > maxId || !Due(te, now) {
          i := i + 1;
          continue;
        }
        fired, pending := FireNext(te, now, proc, start, fired, pending, next);
        processed := processed + 1;
        i := 0;
      }
      PassEnds(start, fired, pending, proc, now, next);
    }

    // Partway through a pass: what has fired, and the due timers that have not.
    ghost predicate Passing(start: seq<Timer>, fired: seq<int>, pending: set<int>, proc: int -> Callback, now: Time, next: int)
      reads `timers
    {
      && (forall t :: t in start ==> t.id < next)
      && Distinct(fired) && (forall id :: id in fired ==> DueId(start, now, id))
      && (forall id :: id in pending <==> DueId(start, now, id) && id !in fired)
      && (forall t: Timer {:trigger t in timers} :: t.id < next ==> (t in timers <==> Stays(start, fired, proc, now, t)))
    }

    // The timers created so far in the pass.
    ghost predicate Grown(fired: seq<int>, proc: int -> Callback, now: Time, next: int)
      reads `timers, `nextId
    {
      var actions := AllActions(fired, proc);
      && nextId == next + Creates(actions)
      && forall t: Timer {:trigger t in timers} :: t.id >= next ==> (t in timers <==> Made(actions, next, now, t))
    }

    lemma PassStarts(proc: int -> Callback, now: Time)
      requires Valid()
      ensures Passing(timers, [], DueIds(timers, now), proc, now, nextId) && Grown([], proc, now, nextId)
    {
      assert AllActions([], proc) == [] && Creates([]) == 0;
    }

    lemma PassEnds(start: seq<Timer>, fired: seq<int>, pending: set<int>, proc: int -> Callback, now: Time, next: int)
      requires Passing(start, fired, pending, proc, now, next) && Grown(fired, proc, now, next)
      requires forall k :: 0 <= k < |timers| ==> timers[k].id >= next || !Due(timers[k], now)
      ensures Distinct(fired) && (forall id :: id in fired ==> DueId(start, now, id))
      ensures forall t :: t in start && Due(t, now) ==> t.id in fired || DeletedBy(t.id, fired, proc)
      ensures forall t: Timer {:trigger t in timers} :: t.id < next ==> (t in timers <==> Stays(start, fired, proc, now, t))
      ensures nextId == next + Creates(AllActions(fired, proc))
      ensures forall t: Timer {:trigger t in timers} ::
        t.id >= next ==> (t in timers <==> Made(AllActions(fired, proc), next, now, t))
    {
      hide Stays, Due, AddMilliseconds;
      forall t | t in start && Due(t, now) ensures t.id in fired || DeletedBy(t.id, fired, proc) {
        DueIsDone(start, fired, proc, now, timers, t);
      }
    }

    twostate lemma {:induction false} GrownMore(new fired: seq<int>, new te: Timer, new proc: int -> Callback, new now: Time, next: int)
      requires old(Grown(fired, proc, now, next)) && te.id < next
      requires var c := proc(te.id);
        && nextId == old(nextId) + Creates(c.actions)
        && (forall t: Timer {:trigger t in timers} :: t.id < old(nextId) ==> (t in timers <==> AfterFire(old(timers), te, c, now, t)))
        && (forall t: Timer {:trigger t in timers} :: t.id >= old(nextId) ==> (t in timers <==> Made(c.actions, old(nextId), now, t)))
      ensures Grown(fired + [te.id], proc, now, next)
    {
      hide AddMilliseconds, AllActions, Creates, Made;
      var (a, b) := (AllActions(fired, proc), proc(te.id).actions);
      OneMoreFired(fired, te.id, proc);
      CreatesTwo(a, b);
      forall t: Timer | t.id >= next ensures t in timers <==> Made(a + b, next, now, t) {
        MadeTwo(a, b, next, now, t);
        if Made(b, next + Creates(a), now, t) { MadeIds(b, next + Creates(a), now, t); }
        if Made(a, next, now, t) { MadeIds(a, next, now, t); }
        assert t in old(timers) <==> Made(a, next, now, t);
      }
    }

    method FireNext(te: Timer, now: Time, proc: int -> Callback, ghost start: seq<Timer>, ghost fired: seq<int>,
                    ghost pending: set<int>, ghost next: int) returns (ghost firedNow: seq<int>, ghost pendingNow: set<int>)
      requires Valid() && te in timers && te.id < next && Due(te, now) && 0 <= now.ms < 1000
      requires forall id :: WellBehaved(id, proc(id))
      requires Passing(start, fired, pending, proc, now, next) && Grown(fired, proc, now, next)
      modifies `timers, `nextId, `calls
      ensures Valid() && calls == old(calls) + [te.id]
      ensures firedNow == fired + [te.id] && pendingNow == pending - {te.id} && te.id in pending
      ensures Passing(start, firedNow, pendingNow, proc, now, next) && Grown(firedNow, proc, now, next)
    {
      hide Grown, AllActions, Made, Creates;
      assert WellBehaved(te.id, proc(te.id));
      assert te.id !in fired by {
        if te.id in fired { PutOff(te.id, proc(te.id).retval, now); }
      }
      assert te in start && DueId(start, now, te.id);
      ghost var before := timers;
      NextNotLess(fired, proc, now, next);
      Fire(te, now, proc(te.id));
      GrownMore(fired, te, proc, now, next);
      forall t: Timer | t.id < next ensures t in timers <==> Stays(start, fired + [te.id], proc, now, t) {
        hide Stays, AfterFire;
        FiredOne(start, fired, proc, now, te, before, t);
      }
      firedNow, pendingNow := fired + [te.id], pending - {te.id};
    }

    lemma NextNotLess(fired: seq<int>, proc: int -> Callback, now: Time, next: int)
      requires Grown(fired, proc, now, next)
      ensures next <= nextId
    {
    }
  }

  ghost function DueIds(ts: seq<Timer>, now: Time): (s: set<int>)
    ensures forall id :: id in s <==> DueId(ts, now, id)
  {
    set t | t in ts && Due(t, now) :: t.id
  }

  lemma DueIsDone(start: seq<Timer>, fired: seq<int>, proc: int -> Callback, now: Time, end: seq<Timer>, t: Timer)
    requires t in end <==> Stays(start, fired, proc, now, t)
    requires t in start && Due(t, now) && (t in end ==> !Due(t, now))
    ensures t.id in fired || DeletedBy(t.id, fired, proc)
  {
  }

  // One more firing, seen from the start of the pass.
  lemma FiredOne(start: seq<Timer>, fired: seq<int>, proc: int -> Callback, now: Time, te: Timer, before: seq<Timer>, t: Timer)
    requires t in before <==> Stays(start, fired, proc, now, t)
    requires te.id !in fired && te in start && te in before && Stays(start, fired, proc, now, te)
    ensures Stays(start, fired + [te.id], proc, now, t) <==> AfterFire(before, te, proc(te.id), now, t)
  {
    var more := fired + [te.id];
    assert forall x :: x in more <==> x in fired || x == te.id;
    if DeletedBy(t.id, fired, proc) {
      var x :| x in fired && Delete(t.id) in proc(x).actions;
      assert x in more;
    }
    if Delete(t.id) in proc(te.id).actions {
      assert te.id in more;
    }
  }
}
