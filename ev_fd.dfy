// src/epEventFd.c: the file-descriptor event variant.  Its codes are
// translated both ways between AMC masks and epoll masks, its key is
// "fd_<fd>", and attaching to a reactor registers it and adds it to the epoll
// set (modifying it when the same event is attached again).
module EvFd {
  import opened Wrappers
  import opened Errno
  import opened RbError
  import opened EpCommon
  import opened EpEvent

  /** The epoll bits the translation can produce. */
  const EPOLL_FD_BITS: Mask := EPOLLONESHOT | EPOLLET | EPOLLIN | EPOLLPRI | EPOLLOUT | EPOLLERR | EPOLLHUP
  /** The AMC bits the reverse translation can produce. */
  const AMC_IO_BITS: Mask := EP_EVENT_READ | EP_EVENT_WRITE | EP_EVENT_ERROR

  /** `_epoll_code_from_amc_code`. */
  function EpollCodeFromAmc(amc: Mask): (r: Mask)
    ensures AnySet(r, EPOLLONESHOT) <==> !AnySet(amc, EP_MODE_PERSIST)
    ensures AnySet(r, EPOLLET) <==> AnySet(amc, EP_MODE_EDGE)
    ensures AnySet(r, EPOLLIN) <==> AnySet(amc, EP_EVENT_READ)
    ensures AnySet(r, EPOLLPRI) <==> AnySet(amc, EP_EVENT_READ)
    ensures AnySet(r, EPOLLOUT) <==> AnySet(amc, EP_EVENT_WRITE)
    ensures AnySet(r, EPOLLERR) <==> AnySet(amc, EP_EVENT_ERROR)
    ensures AnySet(r, EPOLLHUP) <==> AnySet(amc, EP_EVENT_ERROR)
    ensures r & !EPOLL_FD_BITS == 0
  {
    (if amc & EP_MODE_PERSIST == 0 then EPOLLONESHOT else 0)
    | (if amc & EP_MODE_EDGE != 0 then EPOLLET else 0)
    | (if amc & EP_EVENT_READ != 0 then EPOLLIN | EPOLLPRI else 0)
    | (if amc & EP_EVENT_WRITE != 0 then EPOLLOUT else 0)
    | (if amc & EP_EVENT_ERROR != 0 then EPOLLERR | EPOLLHUP else 0)
  }

  /** `_amc_code_from_epoll_code`. */
  function AmcCodeFromEpoll(epoll: Mask): (r: Mask)
    ensures AnySet(r, EP_EVENT_READ) <==> AnySet(epoll, EPOLLIN | EPOLLPRI)
    ensures AnySet(r, EP_EVENT_WRITE) <==> AnySet(epoll, EPOLLOUT)
    ensures AnySet(r, EP_EVENT_ERROR) <==> AnySet(epoll, EPOLLERR | EPOLLHUP)
    ensures r & !AMC_IO_BITS == 0
  {
    (if AnySet(epoll, EPOLLIN | EPOLLPRI) then EP_EVENT_READ else 0)
    | (if AnySet(epoll, EPOLLOUT) then EP_EVENT_WRITE else 0)
    | (if AnySet(epoll, EPOLLERR | EPOLLHUP) then EP_EVENT_ERROR else 0)
  }

  /** There and back keeps exactly the read, write and error requests of a mask. */
  lemma TranslationRoundTrip(m: Mask)
    ensures AmcCodeFromEpoll(EpollCodeFromAmc(m)) == m & AMC_IO_BITS
  {
  }

  /** `_check_events`: a mask is valid for a file event when it asks for reading or writing. */
  predicate CheckEvents(events: Mask)
  {
    events != 0 && AnySet(events, EP_EVENT_READ | EP_EVENT_WRITE)
  }

  /** `epEventFd_IsFileEvent`. */
  predicate IsFileEvent(what: Mask)
  {
    AnySet(what, EP_EVENT_READ | EP_EVENT_WRITE)
  }

  /** The validity check and the type test accept the same masks. */
  lemma CheckEventsIsFileEvent(m: Mask)
    ensures CheckEvents(m) <==> IsFileEvent(m)
    ensures CheckEvents(m) ==> m != 0
  {
  }

  /**
   * `epEventFd_Create`: NULL with EINVAL for a negative descriptor, a NULL
   * callback or a mask without read or write; NULL when the allocation
   * fails; otherwise a fresh event with its fields filled in.
   */
  method Create(fd: CInt, events: Mask, timeout: int, callback: nat, userData: nat, addr: nat, allocOk: bool)
    returns (e: Event?, errno: Option<int>)
    requires 0 < addr < 0x1_0000_0000_0000_0000
    ensures e == null <==> fd < 0 || callback == 0 || !CheckEvents(events) || !allocOk
    ensures (fd < 0 || callback == 0 || !CheckEvents(events)) ==> errno == Some(EINVAL)
    ensures e == null && fd >= 0 && callback != 0 && CheckEvents(events) ==> errno == None
    ensures e != null ==> fresh(e) && errno == None && e.addr == addr
    ensures e != null ==> e.fd == fd && e.callback == callback && e.userData == userData
    ensures e != null ==> e.events == events && e.epollEvents == EpollCodeFromAmc(events)
    ensures e != null ==> e.variant == Some(FdVariant) && e.key == FdKey(fd) && e.key == "fd_" + Decimal(fd)
  {
    if fd < 0 || callback == 0 || !CheckEvents(events) {
      return null, Some(EINVAL);
    }
    if !allocOk {
      return null, None;
    }
    e := new Event(addr);
    e.fd := fd;
    e.callback := callback;
    e.userData := userData;
    e.epollEvents := EpollCodeFromAmc(events);
    e.events := events;
    e.variant := Some(FdVariant);
    e.key := FdKey(fd);
    CIntKeysWhole(fd);
    errno := None;
  }

  /**
   * `_add_fd_event`: register under the key made from the descriptor, then
   * add to the epoll set; when the epoll call fails the registration is
   * removed again.  `reg` is the registry's result and `regErrno` the errno
   * it leaves; `ctl` is the `epoll_ctl(EPOLL_CTL_ADD)` result; `rollback` is
   * the result of the removal, which is not checked: when it fails the event
   * stays registered although the call reports failure.
   */
  method AddFdEvent(base: Base, event: Event, reg: int, regErrno: int, ctl: Sys, rollback: int) returns (r: Report)
    requires FdKey(event.fd) !in base.registry
    modifies base
    ensures reg < 0 ==> r == ReturnErr(regErrno) && base.registry == old(base.registry)
    ensures reg >= 0 && ctl.Done? ==> r == Report(0, None) && base.registry == old(base.registry)[FdKey(event.fd) := event]
    ensures reg >= 0 && ctl.Failed? ==>
      r == ReturnErr(ctl.errno) &&
      base.registry == if rollback >= 0 then old(base.registry) else old(base.registry)[FdKey(event.fd) := event]
    ensures base.status == old(base.status)
  {
    var key := FdKey(event.fd);
    var callStat := base.Attach(event, key, reg);
    if callStat < 0 {
      return ReturnErr(regErrno);
    }
    if ctl.Done? {
      return Report(0, None);
    }
    callStat := base.Detach(key, rollback);
    assert rollback >= 0 ==> base.registry == old(base.registry);
    return ReturnErr(ctl.errno);
  }

  /**
   * `epEventFd_AddToBase`: the three-way attach decision on the event's own
   * key.  Absent: `_add_fd_event`.  The same event: `epoll_ctl(EPOLL_CTL_MOD)`.
   * A different event: EEXIST.  `rollback` is as for `AddFdEvent`.
   */
  method AddToBase(base: Base?, event: Event?, reg: int, regErrno: int, ctl: Sys, rollback: int) returns (r: Report)
    requires event != null ==> event.key == FdKey(event.fd)
    modifies base
    ensures base == null || event == null ==> r == ReturnErr(EINVAL)
    ensures base != null && (event == null || old(base.Lookup(event.key)).Some?) ==> base.registry == old(base.registry)
    ensures base != null && event != null && old(base.Lookup(event.key)) == None ==>
      (reg < 0 ==> r == ReturnErr(regErrno) && base.registry == old(base.registry)) &&
      (reg >= 0 && ctl.Done? ==> r == Report(0, None) && base.registry == old(base.registry)[event.key := event]) &&
      (reg >= 0 && ctl.Failed? ==>
        r == ReturnErr(ctl.errno) &&
        base.registry == if rollback >= 0 then old(base.registry) else old(base.registry)[event.key := event])
    ensures base != null && event != null && old(base.Member(event)) ==>
      r == (if ctl.Done? then Report(0, None) else ReturnErr(ctl.errno))
    ensures base != null && event != null && old(base.Lookup(event.key)).Some? && !old(base.Member(event)) ==>
      r == ReturnErr(EEXIST)
    ensures base != null ==> base.status == old(base.status)
  {
    if base == null || event == null {
      return ReturnErr(EINVAL);
    }
    var oldEvent := base.Lookup(event.key);
    if oldEvent.None? {
      r := AddFdEvent(base, event, reg, regErrno, ctl, rollback);
    } else if oldEvent.value == event {
      r := if ctl.Done? then Report(0, None) else ReturnErr(ctl.errno);
    } else {
      r := ReturnErr(EEXIST);
    }
  }

  /** The result `epEventFd_DetachFromBase` reports for non-NULL arguments. */
  function DetachResult(member: bool, ctl: Sys, detach: int): (r: Report)
    ensures r.ret == 0 ==> member && ctl.Done? && detach == 0
    ensures !member ==> r == ReturnErr(ENOENT)
  {
    if !member then ReturnErr(ENOENT)
    else if ctl.Failed? then ReturnErr(ctl.errno)
    else Report(detach, None)
  }

  /**
   * `epEventFd_DetachFromBase`: ENOENT unless the event is the one registered
   * under its key; then `epoll_ctl(EPOLL_CTL_DEL)` (result `ctl`) and the
   * registry removal (result `detach`).
   */
  method DetachFromBase(base: Base?, event: Event?, ctl: Sys, detach: int) returns (r: Report)
    modifies base
    ensures base == null || event == null ==> r == ReturnErr(EINVAL)
    ensures base != null && event != null && !old(base.Member(event)) ==> r == ReturnErr(ENOENT) && base.registry == old(base.registry)
    ensures base != null && event != null && old(base.Member(event)) && ctl.Failed? ==>
      r == ReturnErr(ctl.errno) && base.registry == old(base.registry)
    ensures base != null && event != null && old(base.Member(event)) && ctl.Done? ==>
      r == Report(detach, None) &&
      base.registry == (if detach >= 0 then old(base.registry) - {event.key} else old(base.registry))
    ensures base != null && event != null ==> r == DetachResult(old(base.Member(event)), ctl, detach)
    ensures base != null ==> base.status == old(base.status)
  {
    if base == null || event == null {
      return ReturnErr(EINVAL);
    }
    if !base.Member(event) {
      return ReturnErr(ENOENT);
    }
    if ctl.Failed? {
      return ReturnErr(ctl.errno);
    }
    var callStat := base.Detach(event.key, detach);
    return Report(callStat, None);
  }

  /**
   * `epEventFd_InvokeCallback`: EINVAL without a reactor, an event or an
   * epoll code; otherwise the user callback runs, with the translated code,
   * exactly when that code meets the event's requested mask.
   */
  method InvokeCallback(base: Base?, event: Event?, epollEvent: Mask) returns (r: Report, call: Option<Call>)
    ensures base == null || event == null || epollEvent == 0 ==> r == ReturnErr(EINVAL) && call == None
    ensures base != null && event != null && epollEvent != 0 ==>
      r == Report(0, None) &&
      (call.Some? <==> AmcCodeFromEpoll(epollEvent) & event.events != 0) &&
      (call.Some? ==> call.value == Call(event.fd, AmcCodeFromEpoll(epollEvent)))
  {
    if base == null || event == null || epollEvent == 0 {
      return ReturnErr(EINVAL), None;
    }
    var userWhat := AmcCodeFromEpoll(epollEvent);
    HaveIntrsetMeans(userWhat, event.events);
    call := if HaveIntrset(userWhat, event.events) then Some(UserCall(event, userWhat)) else None;
    r := Report(0, None);
  }
}
