// The records every event variant works on (include/epCommon.h): the event
// (`struct AMCEpollEvent`) and the reactor (`struct AMCEpoll`), with the
// registry that maps an event's key to the event.  The registry
// (`cAssocArray`) and the `epEventIntnl_*` / `epCommon_*` helpers are not
// part of this model: the registry is a map whose insertions and removals
// take their results as parameters, as do system calls.
module EpEvent {
  import opened Wrappers
  import opened Errno
  import opened RbError
  import opened EpCommon
  import opened Timeout

  /** What a system call reports: success, or failure with the `errno` it leaves. */
  datatype Sys = Done | Failed(errno: int)

  /** Which variant's function table an event carries (`free_func` .. `invoke_func`). */
  datatype Variant = FdVariant | SignalVariant | TimeoutVariant

  /** One call of a user callback: `callback(fd, events, user_data)`. */
  datatype Call = Call(fd: int, what: Mask)

  class Event {
    /** The event's address, `(uintptr_t)event`. */
    const addr: nat
    var fd: CInt
    /** The callback's address; 0 is NULL. */
    var callback: nat
    var userData: nat
    var key: string
    var epollEvents: Mask
    var events: Mask
    /** The timeout interval, in milliseconds. */
    var timeout: int
    /** `inter_data` of a signal event: its self-pipe. */
    var pipeRead: int
    var pipeWrite: int
    var variant: Option<Variant>

    /** `epEventIntnl_NewEmptyEvent`: a zero-filled event at `addr`. */
    constructor (addr: nat)
      requires 0 < addr < 0x1_0000_0000_0000_0000
      ensures this.addr == addr && fd == 0 && callback == 0 && userData == 0 && key == []
      ensures epollEvents == 0 && events == 0 && timeout == 0 && pipeRead == 0 && pipeWrite == 0
      ensures variant == None
    {
      this.addr := addr;
      fd, callback, userData, key := 0, 0, 0, [];
      epollEvents, events, timeout := 0, 0, 0;
      pipeRead, pipeWrite := 0, 0;
      variant := None;
    }

    /** Every field except the signal pipe: what the signal variant's pipe bookkeeping must leave alone. */
    function Settings(): (int, nat, nat, string, Mask, Mask, int, Option<Variant>)
      reads this
    {
      (fd, callback, userData, key, epollEvents, events, timeout, variant)
    }
  }

  class Base {
    var epollFd: int
    var status: Mask
    /** `all_events`: registry key to event. */
    var registry: map<string, Event>
    const chain: TimeoutChain
    var buffSize: nat

    constructor (epollFd: int, buffSize: nat, chain: TimeoutChain)
      ensures this.epollFd == epollFd && this.buffSize == buffSize && this.chain == chain
      ensures status == 0 && registry == map[]
    {
      this.epollFd := epollFd;
      this.buffSize := buffSize;
      this.chain := chain;
      status := 0;
      registry := map[];
    }

    /** `epEventIntnl_GetEvent` / `epCommon_GetEvent`: the event registered under `key`, if any. */
    function Lookup(key: string): (r: Option<Event>)
      reads this
      ensures r.Some? <==> key in registry
      ensures r.Some? ==> r.value == registry[key]
    {
      if key in registry then Some(registry[key]) else None
    }

    /** The event is the one registered under its own key. */
    predicate Member(e: Event)
      reads this, e
    {
      Lookup(e.key) == Some(e)
    }

    /**
     * `epEventIntnl_AttachToBase` / `epCommon_AddEvent`: register `e` under
     * `key`; `result` is what the registry reports (negative: failure).
     */
    method Attach(e: Event, key: string, result: int) returns (r: int)
      modifies this
      ensures r == result
      ensures result >= 0 ==> registry == old(registry)[key := e]
      ensures result < 0 ==> registry == old(registry)
      ensures status == old(status) && epollFd == old(epollFd) && buffSize == old(buffSize)
    {
      if result >= 0 {
        registry := registry[key := e];
      }
      return result;
    }

    /** `epEventIntnl_DetachFromBase` / `epCommon_DetachEvent`: remove `key` unless the registry reports failure. */
    method Detach(key: string, result: int) returns (r: int)
      modifies this
      ensures r == result
      ensures result >= 0 ==> registry == old(registry) - {key}
      ensures result < 0 ==> registry == old(registry)
      ensures status == old(status) && epollFd == old(epollFd) && buffSize == old(buffSize)
    {
      if result >= 0 {
        registry := registry - {key};
      }
      return result;
    }
  }

  /** `epEventIntnl_InvokeUserCallback(event, handler, what)`. */
  function UserCall(e: Event, what: Mask): (c: Call)
    reads e
    ensures c.fd == e.fd && c.what == what
  {
    Call(e.fd, what)
  }

  /**
   * `epEventFd_Destroy`, `epEventSignal_Destroy` and `epEventTimeout_Destroy`
   * (identical): refuse NULL, else give the user the free notice, when the
   * event asked for one, before the record is released.  `freed` is what
   * `epEventIntnl_FreeEmptyEvent` returns, and is returned as it is.
   */
  method Destroy(e: Event?, freed: int) returns (r: Report, notice: Option<Call>)
    ensures e == null ==> r == ReturnErr(EINVAL) && r == EpErr(EINVAL) && notice == None
    ensures e != null ==> r == Report(freed, None)
    ensures e != null ==> (notice.Some? <==> AnySet(e.events, EP_EVENT_FREE))
    ensures notice.Some? ==> notice.value == Call(e.fd, EP_EVENT_FREE)
  {
    if e == null {
      return ReturnErr(EINVAL), None;
    }
    notice := if AnySet(e.events, EP_EVENT_FREE) then Some(UserCall(e, EP_EVENT_FREE)) else None;
    r := Report(freed, None);
  }
}
