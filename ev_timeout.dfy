// src/epEventTimeout.c: the timeout event variant.  It has no descriptor
// (fd is -1) and no epoll code; its key is "tm_<address>", and attaching it
// registers it and then schedules it in the reactor's timeout chain.
// `epEventIntnl_AttachToTimeoutChain` and `epEventIntnl_DetachFromTimeoutChain`
// are not part of this model: they are taken to be `utilTimeout_SetObject`
// with the event's timeout converted from milliseconds, and
// `utilTimeout_DelObject`, on the event's address.
module EvTimeout {
  import opened Wrappers
  import opened Errno
  import opened RbError
  import opened EpCommon
  import opened RbCore
  import opened Timespec
  import opened Timeout
  import opened EpEvent
  import EvFd
  import EvSignal

  /** `_check_timeout_events`, which `epEventTimeout_IsTimeoutEvent` returns unchanged. */
  predicate CheckTimeoutEvents(events: Mask)
  {
    events != 0 && !AnySet(events, EP_EVENT_READ | EP_EVENT_WRITE | EP_EVENT_SIGNAL) && AllSet(events, EP_EVENT_TIMEOUT)
  }

  /** A timeout mask is neither a file mask nor a signal mask, and carries TIMEOUT. */
  lemma TimeoutMasksDisjoint(m: Mask)
    requires CheckTimeoutEvents(m)
    ensures !EvFd.IsFileEvent(m) && !EvSignal.IsSignalEvent(m) && AnySet(m, EP_EVENT_TIMEOUT)
  {
  }

  /**
   * `epEventTimeout_Create`: NULL with EINVAL for a descriptor >= 0, a NULL
   * callback or an invalid mask; NULL when the allocation fails; otherwise
   * fd -1, no epoll code, the timeout stored and the key "tm_<address>".
   */
  method Create(fd: CInt, events: Mask, timeout: int, callback: nat, userData: nat, addr: nat, allocOk: bool)
    returns (e: Event?, errno: Option<int>)
    requires 0 < addr < 0x1_0000_0000_0000_0000
    ensures e == null <==> fd >= 0 || callback == 0 || !CheckTimeoutEvents(events) || !allocOk
    ensures (fd >= 0 || callback == 0 || !CheckTimeoutEvents(events)) ==> errno == Some(EINVAL)
    ensures e == null && fd < 0 && callback != 0 && CheckTimeoutEvents(events) ==> errno == None
    ensures e != null ==> fresh(e) && errno == None && e.addr == addr
    ensures e != null ==> e.fd == -1 && e.epollEvents == 0 && e.timeout == timeout && e.events == events
    ensures e != null ==> e.callback == callback && e.userData == userData && e.variant == Some(TimeoutVariant)
    ensures e != null ==> e.key == TimeoutKey(addr) && e.key == "tm_" + Decimal(SignedAddr(addr))
  {
    if fd >= 0 || callback == 0 || !CheckTimeoutEvents(events) {
      return null, Some(EINVAL);
    }
    if !allocOk {
      return null, None;
    }
    e := new Event(addr);
    e.fd := -1;
    e.callback := callback;
    e.userData := userData;
    e.epollEvents := 0;
    e.timeout := timeout;
    e.events := events;
    e.variant := Some(TimeoutVariant);
    e.key := TimeoutKey(addr);
    TimeoutKeysIdentify(addr, addr);
    errno := None;
  }

  /**
   * `epEventTimeout_AddToBase`: EINVAL for NULL arguments; object-exists when
   * anything is registered under the key, even this very event; otherwise
   * register (result `reg`, whose failure returns before scheduling) and
   * schedule the event's address `timeout` milliseconds after `now`.
   */
  method AddToBase(base: Base?, event: Event?, reg: int, now: Timespec, s: Stores) returns (out: Outcome)
    requires event != null ==> 0 < event.addr < 0x1_0000_0000_0000_0000
    modifies base, if base != null then {base.chain} else {}
    ensures base == null || event == null ==> out == Returned(EpErr(EINVAL).ret)
    ensures base != null && event != null && old(base.Lookup(event.key)).Some? ==>
      out == Returned(EpErr(AMC_EP_ERR_OBJ_EXISTS).ret) &&
      base.registry == old(base.registry) && base.chain.State() == old(base.chain.State())
    ensures base != null && event != null && old(base.Lookup(event.key)).None? && reg < 0 ==>
      out == Returned(EpErr(reg).ret) &&
      base.registry == old(base.registry) && base.chain.State() == old(base.chain.State())
    ensures base != null && event != null && old(base.Lookup(event.key)).None? && reg >= 0 ==>
      base.registry == old(base.registry)[event.key := event] &&
      (!old(base.chain.initOK) ==>
        out == Returned(EpErr(AMC_EP_ERR_BASE_TIMEOUT_NOT_INIT).ret) && base.chain.State() == old(base.chain.State())) &&
      (old(base.chain.initOK) && KeyFromTimespec(FromMillis(event.timeout)) != 0 ==>
        Step(base.chain.State(), out) ==
          SetObj(old(base.chain.State()), event.addr, Deadline(now, FromMillis(event.timeout)), s)) &&
      (old(base.chain.initOK) && KeyFromTimespec(FromMillis(event.timeout)) == 0 ==>
        Step(base.chain.State(), out) == DelObj(old(base.chain.State()), event.addr, s))
    ensures base != null ==> base.status == old(base.status)
  {
    if base == null || event == null {
      return Returned(EpErr(EINVAL).ret);
    }
    var oldEvent := base.Lookup(event.key);
    if oldEvent.Some? {
      return Returned(EpErr(AMC_EP_ERR_OBJ_EXISTS).ret);
    }
    var callStat := base.Attach(event, event.key, reg);
    if callStat < 0 {
      return Returned(EpErr(callStat).ret);
    }
    out := SetObject(base.chain, event.addr, FromMillis(event.timeout), now, s);
  }

  /**
   * A positive timeout below 2^32 seconds schedules: its interval's key is
   * not zero.  (The key keeps 32 bits of the seconds, so a timeout of a
   * whole multiple of 2^32 seconds would be taken for the zero interval.)
   */
  lemma PositiveTimeoutScheduled(timeout: int)
    requires 0 < timeout < WORD * MSEC_PER_SEC
    ensures KeyFromTimespec(FromMillis(timeout)) != 0
  {
    KeyZero(FromMillis(timeout));
  }

  /** The wrap the parenthesis above describes. */
  lemma WholeWordTimeoutUnscheduled()
    ensures KeyFromTimespec(FromMillis(WORD * MSEC_PER_SEC)) == 0
  {
  }

  /**
   * A timeout that is not positive converts to the zero interval, so the
   * scheduling step deletes instead: for an event not yet in the chain it
   * reports object-not-found and leaves the chain alone, although the event
   * stays registered.
   */
  lemma NonPositiveTimeoutNotScheduled(c: Chain, addr: Key, timeout: int, s: Stores)
    requires timeout <= 0 && addr !in c.objTime
    ensures KeyFromTimespec(FromMillis(timeout)) == 0
    ensures DelObj(c, addr, s) == Step(c, Returned(-AMC_EP_ERR_OBJ_NOT_FOUND))
  {
    DelObjNotFound(c, addr, s);
  }

  /**
   * `epEventTimeout_DetachFromBase`: object-not-found unless the event is the
   * one registered under its key; then the registry removal (result
   * `detach`, whose failure is returned as is) and the removal of its
   * address from the timeout chain.
   */
  method DetachFromBase(base: Base?, event: Event?, detach: int, s: Stores) returns (out: Outcome)
    requires event != null ==> 0 < event.addr < 0x1_0000_0000_0000_0000
    modifies base, if base != null then {base.chain} else {}
    ensures base == null || event == null ==> out == Returned(EpErr(EINVAL).ret)
    ensures base != null && event != null && !old(base.Member(event)) ==>
      out == Returned(EpErr(AMC_EP_ERR_OBJ_NOT_FOUND).ret) &&
      base.registry == old(base.registry) && base.chain.State() == old(base.chain.State())
    ensures base != null && event != null && old(base.Member(event)) && detach < 0 ==>
      out == Returned(detach) && base.registry == old(base.registry) && base.chain.State() == old(base.chain.State())
    ensures base != null && event != null && old(base.Member(event)) && detach >= 0 ==>
      base.registry == old(base.registry) - {event.key} &&
      (!old(base.chain.initOK) ==>
        out == Returned(EpErr(AMC_EP_ERR_BASE_TIMEOUT_NOT_INIT).ret) && base.chain.State() == old(base.chain.State())) &&
      (old(base.chain.initOK) ==> Step(base.chain.State(), out) == DelObj(old(base.chain.State()), event.addr, s))
    ensures base != null ==> base.status == old(base.status)
  {
    if base == null || event == null {
      return Returned(EpErr(EINVAL).ret);
    }
    if !base.Member(event) {
      return Returned(EpErr(AMC_EP_ERR_OBJ_NOT_FOUND).ret);
    }
    var callStat := base.Detach(event.key, detach);
    if callStat < 0 {
      return Returned(callStat);
    }
    out := DelObject(base.chain, event.addr, s);
  }

  /**
   * `epEventTimeout_InvokeCallback`: with a reactor and an event the user
   * callback always runs with exactly TIMEOUT, whatever epoll code and
   * timed-out flag are given; EINVAL otherwise.
   */
  method InvokeCallback(base: Base?, event: Event?, epollEvent: Mask, timedOut: bool) returns (r: int, call: Option<Call>)
    ensures base == null || event == null ==> r == EpErr(EINVAL).ret && call == None
    ensures base != null && event != null ==> r == 0 && call == Some(Call(event.fd, EP_EVENT_TIMEOUT))
  {
    if base == null || event == null {
      return EpErr(EINVAL).ret, None;
    }
    return 0, Some(UserCall(event, EP_EVENT_TIMEOUT));
  }
}
