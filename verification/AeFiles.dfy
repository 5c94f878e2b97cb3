/** Registration of file events: the masks, the largest descriptor, and what the kernel is asked to watch. */
module AeFiles {
  datatype Mask = Mask(readable: bool, writable: bool)

  const AE_NONE := Mask(false, false)
  const READABLE := Mask(true, false)

  function Both(a: Mask, b: Mask): Mask {
    Mask(a.readable || b.readable, a.writable || b.writable)
  }

  function Without(a: Mask, b: Mask): Mask {
    Mask(a.readable && !b.readable, a.writable && !b.writable)
  }

  // A descriptor's mask, its two handlers and its client data.
  datatype FileEvent = FileEvent(mask: Mask, rfileProc: int, wfileProc: int, clientData: int)

  datatype Ctl = Add | Mod | Del

  const FD_SETSIZE: nat := 1024

  // The mask of a descriptor; none outside the table.
  function MaskAt(masks: seq<Mask>, fd: nat): Mask {
    if fd < |masks| then masks[fd] else AE_NONE
  }

  // maxfd is the largest registered descriptor, or -1.
  ghost predicate Largest(masks: seq<Mask>, maxfd: int) {
    && -1 <= maxfd < |masks|
    && (maxfd >= 0 ==> masks[maxfd] != AE_NONE)
    && forall fd :: maxfd < fd < |masks| ==> masks[fd] == AE_NONE
  }

  // The kernel watches the registered descriptors, each with its mask, but for those in gone: they were
  // closed while registered.
  ghost predicate Watched(masks: seq<Mask>, interest: map<nat, Mask>, gone: set<nat>) {
    && (forall fd: nat {:trigger MaskAt(masks, fd)} {:trigger fd in interest} ::
          fd in interest <==> MaskAt(masks, fd) != AE_NONE && fd !in gone)
    && (forall fd: nat {:trigger interest[fd]} :: fd in interest ==> interest[fd] == MaskAt(masks, fd))
    && (forall fd: nat {:trigger fd in gone} :: fd in gone ==> MaskAt(masks, fd) != AE_NONE)
  }

  ghost predicate Selected(masks: seq<Mask>, rfds: set<nat>, wfds: set<nat>) {
    && (forall fd: nat {:trigger fd in rfds} {:trigger MaskAt(masks, fd)} :: fd in rfds <==> MaskAt(masks, fd).readable)
    && (forall fd: nat {:trigger fd in wfds} {:trigger MaskAt(masks, fd)} :: fd in wfds <==> MaskAt(masks, fd).writable)
  }

  class EventLoop {
    var setsize: nat
    var maxfd: int
    var events: array<FileEvent>

    // The two back ends: what the kernel's epoll instance watches, or the two sets handed to select.
    const usesSelect: bool
    var interest: map<nat, Mask>
    var rfds: set<nat>
    var wfds: set<nat>

    ghost var masks: seq<Mask>
    ghost var gone: set<nat>    // closed while registered

    ghost predicate Sized()
      reads this, events
    {
      && events.Length == setsize == |masks| && (usesSelect ==> setsize <= FD_SETSIZE)
      && forall i :: 0 <= i < setsize ==> masks[i] == events[i].mask
    }

    ghost predicate Mirrors()
      reads this
    {
      if usesSelect then Selected(masks, rfds, wfds) && gone == {} else Watched(masks, interest, gone)
    }

    ghost predicate Valid()
      reads this, events
    {
      Sized() && Largest(masks, maxfd) && Mirrors()
    }

    constructor (setsize: nat, usesSelect: bool)
      requires usesSelect ==> setsize <= FD_SETSIZE
      ensures Valid() && fresh(events) && maxfd == -1 && gone == {}
      ensures this.setsize == setsize && this.usesSelect == usesSelect
      ensures forall fd: nat {:trigger MaskAt(masks, fd)} :: MaskAt(masks, fd) == AE_NONE
    {
      this.setsize, this.usesSelect, maxfd := setsize, usesSelect, -1;
      events := new FileEvent[setsize](_ => FileEvent(AE_NONE, 0, 0, 0));
      interest, rfds, wfds := map[], {}, {};
      masks, gone := seq(setsize, _ => AE_NONE), {};
    }

    // The kernel refuses to add what is there and to change or drop what is not.
    method EpollCtl(op: Ctl, fd: nat, mask: Mask, accepts: bool) returns (ok: bool)
      modifies `interest
      ensures ok == (accepts && (op == Add <==> fd !in old(interest)))
      ensures interest == if !ok then old(interest) else if op == Del then old(interest) - {fd} else old(interest)[fd := mask]
    {
      ok := accepts && (op == Add) == (fd !in interest);
      if ok {
        interest := if op == Del then interest - {fd} else interest[fd := mask];
      }
    }

    // accepts says whether the kernel takes a well-formed request.  A change of what it has dropped is not one.
    method ApiAddEvent(fd: nat, mask: Mask, accepts: bool) returns (ok: bool)
      requires Sized() && fd < setsize && Mirrors()
      modifies `interest, `rfds, `wfds
      ensures ok == (usesSelect || (accepts && fd !in gone))
      ensures !usesSelect ==> interest == if ok then old(interest)[fd := Both(mask, masks[fd])] else old(interest)
      ensures usesSelect ==> rfds == (if mask.readable then old(rfds) + {fd} else old(rfds))
      ensures usesSelect ==> wfds == (if mask.writable then old(wfds) + {fd} else old(wfds))
    {
      if usesSelect {
        if mask.readable { rfds := rfds + {fd}; }
        if mask.writable { wfds := wfds + {fd}; }
        return true;
      }
      assert MaskAt(masks, fd) == events[fd].mask;
      var op := if events[fd].mask == AE_NONE then Add else Mod;
      ok := EpollCtl(op, fd, Both(mask, events[fd].mask), accepts);
    }

    method ApiDelEvent(fd: nat, delmask: Mask)
      requires Sized() && fd < setsize && masks[fd] != AE_NONE && Mirrors()
      modifies `interest, `rfds, `wfds
      ensures !usesSelect ==> var mask := Without(masks[fd], delmask);
        interest == if fd in gone then old(interest) else if mask == AE_NONE then old(interest) - {fd} else old(interest)[fd := mask]
      ensures usesSelect ==> rfds == (if delmask.readable then old(rfds) - {fd} else old(rfds))
      ensures usesSelect ==> wfds == (if delmask.writable then old(wfds) - {fd} else old(wfds))
    {
      if usesSelect {
        if delmask.readable { rfds := rfds - {fd}; }
        if delmask.writable { wfds := wfds - {fd}; }
        return;
      }
      assert MaskAt(masks, fd) == events[fd].mask;
      var mask := Without(events[fd].mask, delmask);
      if mask != AE_NONE {
        var ok := EpollCtl(Mod, fd, mask, true);
        assert ok <==> fd !in gone;
      } else {
        var ok := EpollCtl(Del, fd, mask, true);
        assert ok <==> fd !in gone;
      }
    }

    // An empty mask for a free descriptor breaks the invariant, save under select below maxfd: the kernel
    // then watches a descriptor the loop takes for free, or maxfd names one.
    method CreateFileEvent(fd: nat, mask: Mask, proc: int, clientData: int, accepts: bool) returns (ok: bool)
      requires Valid()
      modifies `maxfd, `interest, `rfds, `wfds, `masks, events
      ensures Sized() && (fd < setsize ==> (Valid() <==> !ok || masks[fd] != AE_NONE || (usesSelect && fd <= old(maxfd))))
      ensures fd >= setsize ==> Valid()
      ensures ok == (fd < setsize && (usesSelect || (accepts && fd !in gone)))
      ensures masks == if ok then old(masks)[fd := Both(old(masks)[fd], mask)] else old(masks)
      ensures ok ==> maxfd == if fd > old(maxfd) then fd else old(maxfd)
      ensures ok ==> events[fd].mask.readable == (old(events[fd].mask.readable) || mask.readable)
      ensures ok ==> events[fd].mask.writable == (old(events[fd].mask.writable) || mask.writable)
      ensures ok ==> events[fd].clientData == clientData
      ensures ok ==> events[fd].rfileProc == if mask.readable then proc else old(events[fd].rfileProc)
      ensures ok ==> events[fd].wfileProc == if mask.writable then proc else old(events[fd].wfileProc)
      ensures forall n :: 0 <= n < setsize && (!ok || n != fd) ==> events[n] == old(events[n])
    {
      if fd >= setsize {
        return false;
      }
      ok := ApiAddEvent(fd, mask, accepts);
      if !ok {
        return;
      }
      var fe := events[fd];
      AddLargest(masks, maxfd, fd, mask);
      assert MaskAt(masks, fd) == masks[fd];
      if usesSelect {
        AddSelected(masks, old(rfds), old(wfds), fd, mask);
      } else {
        AddKeepsWatch(masks, old(interest), gone, fd, mask);
      }
      masks := masks[fd := Both(masks[fd], mask)];
      events[fd] := FileEvent(Both(fe.mask, mask), if mask.readable then proc else fe.rfileProc,
                              if mask.writable then proc else fe.wfileProc, clientData);
      if fd > maxfd {
        maxfd := fd;
      }
    }

    lemma NotGone(fd: nat)
      requires Mirrors() && MaskAt(masks, fd) == AE_NONE
      ensures fd !in gone
    {
    }

    method DeleteFileEvent(fd: nat, mask: Mask)
      requires Valid()
      modifies `maxfd, `interest, `rfds, `wfds, `masks, `gone, events
      ensures Valid()
      ensures gone == if MaskAt(masks, fd) == AE_NONE then old(gone) - {fd} else old(gone)
      ensures masks == if fd < |old(masks)| then old(masks)[fd := Without(old(masks)[fd], mask)] else old(masks)
      ensures fd < setsize ==> events[fd] == old(events[fd]).(mask := Mask(
        old(events[fd].mask.readable) && !mask.readable, old(events[fd].mask.writable) && !mask.writable))
      ensures forall n :: 0 <= n < setsize && n != fd ==> events[n] == old(events[n])
    {
      hide Watched, Selected;
      if fd >= setsize {
        NotGone(fd);
        return;
      }
      var fe := events[fd];
      assert fe.mask == MaskAt(masks, fd);
      if fe.mask == AE_NONE {
        NotGone(fd);
        assert masks == old(masks)[fd := AE_NONE];
        return;
      }
      ApiDelEvent(fd, mask);
      DropMirrors(masks, old(interest), old(rfds), old(wfds), gone, fd, mask);
      masks := masks[fd := Without(masks[fd], mask)];
      gone := if masks[fd] == AE_NONE then gone - {fd} else gone;
      events[fd] := fe.(mask := Without(fe.mask, mask));
      if fd == maxfd && Without(fe.mask, mask) == AE_NONE {
        maxfd := LargestBelow(fd);
      }
    }

    // The process closes a descriptor.  The kernel's set loses it, and nobody tells the loop.
    method Close(fd: nat)
      requires Valid()
      modifies `interest, `gone
      ensures Valid()
      ensures gone == if usesSelect || MaskAt(masks, fd) == AE_NONE then old(gone) else old(gone) + {fd}
    {
      if !usesSelect {
        interest := interest - {fd};
        gone := if MaskAt(masks, fd) == AE_NONE then gone else gone + {fd};
      }
    }

    // A descriptor is closed and its number registered again: that succeeds exactly if the loop had been told.
    method Reopen(fd: nat, told: bool, proc: int) returns (ok: bool)
      requires Valid() && !usesSelect && fd < setsize && MaskAt(masks, fd) == READABLE
      modifies `maxfd, `interest, `rfds, `wfds, `masks, `gone, events
      ensures Valid() && (ok <==> told) && (fd in gone <==> !told)
    {
      if told {
        DeleteFileEvent(fd, READABLE);
      }
      Close(fd);
      ok := CreateFileEvent(fd, READABLE, proc, 0, true);
    }

    method LargestBelow(fd: nat) returns (j: int)
      requires Sized() && fd < setsize && forall n :: fd <= n < setsize ==> masks[n] == AE_NONE
      ensures Largest(masks, j)
    {
      j := fd - 1;
      while j >= 0 && events[j].mask == AE_NONE
        invariant -1 <= j < fd
        invariant forall n :: j < n < setsize ==> masks[n] == AE_NONE
      {
        j := j - 1;
      }
    }

    // A smaller table is refused while a descriptor beyond it is in use.
    method ResizeSetSize(newsize: nat) returns (ok: bool)
      requires Valid()
      modifies `setsize, `events, `masks
      ensures Valid()
      ensures ok <==> newsize == old(setsize) || (maxfd < newsize && (usesSelect ==> newsize < FD_SETSIZE))
      ensures setsize == if ok then newsize else old(setsize)
      ensures forall n: nat {:trigger MaskAt(masks, n)} :: MaskAt(masks, n) == MaskAt(old(masks), n)
      ensures fresh(events) || events == old(events)
      ensures forall n :: 0 <= n < setsize && n < old(setsize) ==> events[n] == old(events[n])
    {
      if newsize == setsize {
        return true;
      }
      if maxfd >= newsize || (usesSelect && newsize >= FD_SETSIZE) {
        return false;
      }
      var more := Reallocated(newsize);
      ghost var was := masks;
      masks := seq(newsize, n requires 0 <= n < newsize => MaskAt(was, n));
      events, setsize := more, newsize;
      return true;
    }

    // The table in its new size, with nothing registered after maxfd.
    method Reallocated(newsize: nat) returns (more: array<FileEvent>)
      requires Sized() && Largest(masks, maxfd) && maxfd < newsize
      ensures fresh(more) && more.Length == newsize
      ensures forall k :: 0 <= k < newsize ==> more[k].mask == MaskAt(masks, k)
      ensures forall k :: 0 <= k < newsize && k < setsize ==> more[k] == events[k]
    {
      more := new FileEvent[newsize](_ => FileEvent(AE_NONE, 0, 0, 0));
      forall i | 0 <= i < newsize && i < setsize {
        more[i] := events[i];
      }
      var i := maxfd + 1;
      while i < newsize
        invariant maxfd + 1 <= i <= newsize
        invariant forall k :: 0 <= k < newsize && k < setsize ==> more[k] == events[k]
        invariant forall k :: maxfd < k < i ==> more[k].mask == AE_NONE
      {
        more[i] := more[i].(mask := AE_NONE);
        i := i + 1;
      }
    }
  }

  lemma AddLargest(masks: seq<Mask>, maxfd: int, fd: nat, mask: Mask)
    requires Largest(masks, maxfd) && fd < |masks|
    ensures var now := Both(masks[fd], mask);
      Largest(masks[fd := now], if fd > maxfd then fd else maxfd) <==> now != AE_NONE || fd <= maxfd
  {
  }

  lemma AddSelected(masks: seq<Mask>, rfds: set<nat>, wfds: set<nat>, fd: nat, mask: Mask)
    requires Selected(masks, rfds, wfds) && fd < |masks|
    ensures Selected(masks[fd := Both(masks[fd], mask)],
                     if mask.readable then rfds + {fd} else rfds, if mask.writable then wfds + {fd} else wfds)
  {
  }

  lemma DropMirrors(masks: seq<Mask>, interest: map<nat, Mask>, rfds: set<nat>, wfds: set<nat>, gone: set<nat>,
                    fd: nat, mask: Mask)
    requires fd < |masks| && masks[fd] != AE_NONE
    ensures var now := Without(masks[fd], mask);
      && (Watched(masks, interest, gone) ==>
            Watched(masks[fd := now],
                    if fd in gone then interest else if now == AE_NONE then interest - {fd} else interest[fd := now],
                    if now == AE_NONE then gone - {fd} else gone))
      && (Selected(masks, rfds, wfds) ==>
            Selected(masks[fd := now], if mask.readable then rfds - {fd} else rfds, if mask.writable then wfds - {fd} else wfds))
  {
  }

  // The two back ends watch the same descriptors for the same events.
  lemma BackEndsAgree(masks: seq<Mask>, interest: map<nat, Mask>, rfds: set<nat>, wfds: set<nat>)
    requires Watched(masks, interest, {}) && Selected(masks, rfds, wfds)
    ensures forall fd: nat {:trigger fd in interest} :: fd in interest <==> fd in rfds || fd in wfds
    ensures forall fd: nat {:trigger interest[fd]} :: fd in interest ==> interest[fd] == Mask(fd in rfds, fd in wfds)
  {
    forall fd: nat ensures fd in interest <==> fd in rfds || fd in wfds {
      assert MaskAt(masks, fd) == Mask(MaskAt(masks, fd).readable, MaskAt(masks, fd).writable);
    }
    forall fd: nat | fd in interest ensures interest[fd] == Mask(fd in rfds, fd in wfds) {
      assert interest[fd] == MaskAt(masks, fd);
    }
  }

  // What the kernel watches is what the loop believes exactly if nothing was closed while registered.
  lemma InStep(masks: seq<Mask>, interest: map<nat, Mask>, gone: set<nat>)
    requires Watched(masks, interest, gone)
    ensures Watched(masks, interest, {}) <==> gone == {}
  {
    if fd :| fd in gone { assert MaskAt(masks, fd) != AE_NONE; }
  }

  // Adding an event keeps the kernel's set in step with the masks exactly when the descriptor ends up with one.
  lemma AddKeepsWatch(masks: seq<Mask>, interest: map<nat, Mask>, gone: set<nat>, fd: nat, mask: Mask)
    requires Watched(masks, interest, gone) && fd < |masks| && fd !in gone
    ensures Watched(masks[fd := Both(masks[fd], mask)], interest[fd := Both(mask, masks[fd])], gone)
        <==> mask != AE_NONE || fd in interest
  {
    var (m, i) := (masks[fd := Both(masks[fd], mask)], interest[fd := Both(mask, masks[fd])]);
    assert MaskAt(masks, fd) == masks[fd];
    if mask == AE_NONE && fd !in interest {
      assert fd in i && MaskAt(m, fd) == AE_NONE;
    } else {
      forall n: nat ensures n in i <==> MaskAt(m, n) != AE_NONE && n !in gone {
        assert n != fd ==> MaskAt(m, n) == MaskAt(masks, n);
      }
      forall n: nat | n in i ensures i[n] == MaskAt(m, n) {
        assert n != fd ==> i[n] == interest[n];
      }
    }
  }
}
