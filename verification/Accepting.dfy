/** The accept handler: a slave's descriptor in the event loop and the relay's idea of its slave. */
module Accepting {
  import opened AeFiles
  import L = Relay

  // The proxy registers its descriptors for reading.
  ghost predicate ReadOnly(masks: seq<Mask>) {
    forall fd: nat :: !MaskAt(masks, fd).writable
  }

  lemma StillReadOnly(masks: seq<Mask>, fd: nat)
    requires ReadOnly(masks) && fd < |masks|
    ensures masks[fd] == MaskAt(masks, fd) && ReadOnly(masks[fd := Both(masks[fd], READABLE)])
    ensures masks[fd] in {AE_NONE, READABLE} && ReadOnly(masks[fd := Without(masks[fd], READABLE)])
  {
    assert !MaskAt(masks, fd).writable;
    WriteReadOnly(masks, fd, Both(masks[fd], READABLE));
    WriteReadOnly(masks, fd, Without(masks[fd], READABLE));
  }

  lemma WriteReadOnly(masks: seq<Mask>, fd: nat, m: Mask)
    requires ReadOnly(masks) && fd < |masks| && !m.writable
    ensures ReadOnly(masks[fd := m])
  {
    var now := masks[fd := m];
    forall n: nat ensures !MaskAt(now, n).writable {
      assert !MaskAt(masks, n).writable;
    }
  }

  lemma Registered(el: EventLoop, fd: nat)
    requires el.Valid() && !el.usesSelect && fd in el.interest
    ensures fd !in el.gone && MaskAt(el.masks, fd) != AE_NONE
  {
  }

  // clientFd is the descriptor of the slave, -1 without one; cfd is what accept returns.  The old descriptor is
  // closed, but the loop is not told, so the number it had is refused when it comes back.
  method AcceptTcpHandler(r: L.Relay, el: EventLoop, clientFd: int, cfd: int, accepts: bool) returns (now: int)
    requires r.Valid() && r.master && el.Valid() && !el.usesSelect && -1 <= clientFd && -1 <= cfd
    requires r.client <==> clientFd != -1
    requires ReadOnly(el.masks) && (clientFd != -1 ==> clientFd in el.interest)
    requires cfd != -1 && cfd != clientFd ==> cfd !in el.interest
    modifies r`client, r`delivered, r`mark, r`master, r`state
    modifies el`maxfd, el`interest, el`rfds, el`wfds, el`masks, el`gone, el.events
    ensures r.Valid() && el.Valid() && ReadOnly(el.masks) && (r.client <==> now != -1)
    ensures cfd == -1 ==> r.master && !r.client
    ensures cfd != -1 ==>
      && r.master == r.client && (r.client ==> now == cfd && MaskAt(el.masks, cfd) == READABLE)
      && (r.client <==> accepts && cfd < el.setsize && cfd != clientFd && cfd !in old(el.gone))
    ensures clientFd != -1 && clientFd != cfd ==> clientFd in el.gone
    ensures cfd != -1 ==> cfd !in el.gone
  {
    hide Watched, Selected, Largest, L.Relay.Valid, ReadOnly;
    if clientFd != -1 {
      Registered(el, clientFd);
      el.Close(clientFd);
    }
    now := cfd;
    if cfd == -1 {
      r.Accept(false, false);
      return;
    }
    if cfd < el.setsize { StillReadOnly(el.masks, cfd); }
    var ok := el.CreateFileEvent(cfd, READABLE, 0, 0, accepts);
    r.Accept(true, ok);
    if !ok {
      el.DeleteFileEvent(cfd, READABLE);
      el.Close(cfd);
      now := -1;
    }
  }
}
