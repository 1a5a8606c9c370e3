// src/AMCEpoll.c: the reactor.  `AMCEpoll_New` builds it, `AMCEpoll_Dispatch`
// runs `_dispatch_main_loop` over the results of `epoll_wait`, and the public
// event functions route each call to the event's variant.  The results of
// `epoll_wait` are given as a sequence of rounds; each ready slot carries the
// results the one-shot detach of its event would get.  User callbacks are
// recorded as calls; the model gives them no effect on the reactor, although
// a C callback may add, delete or free events or ask the loop to exit.
module Reactor {
  import opened Wrappers
  import opened Errno
  import opened RbError
  import opened EpCommon
  import opened Timespec
  import opened Timeout
  import opened EpEvent
  import EvFd
  import EvSignal
  import EvTimeout

  // `base_status` bits.
  const EP_STAT_SHOULD_EXIT: Mask := 0x1
  const EP_STAT_EPOLL_ERROR: Mask := 0x2
  const EP_STAT_RUNNING: Mask := 0x4

  /**
   * One ready slot of the epoll buffer: its epoll code, its `data.ptr` (None
   * is NULL), and what `epoll_ctl(EPOLL_CTL_DEL)` and the registry removal
   * report if the slot's event is detached.
   */
  datatype Entry = Entry(what: Mask, data: Option<Event>, ctl: Sys, detach: int)

  /** One `epoll_wait` call: failure with errno, or the ready slots (none when it timed out). */
  datatype Wait = WaitFailed(errno: int) | Ready(entries: seq<Entry>)

  /** A wait failure that ends the loop: anything but EINTR. */
  predicate Fatal(w: Wait)
  {
    w.WaitFailed? && w.errno != EINTR
  }

  /** The events the ready slots point at. */
  function Events(es: seq<Entry>): set<Event>
  {
    set e | e in es && e.data.Some? :: e.data.value
  }

  /**
   * The slot's event is detached and leaves the registry: it has no PERSIST,
   * it is the event registered under its key, and both the epoll call and
   * the registry removal succeed.
   */
  predicate Detaches(reg: map<string, Event>, e: Entry)
    reads if e.data.Some? then {e.data.value} else {}
  {
    e.data.Some? && !AnySet(e.data.value.events, EP_MODE_PERSIST) &&
    e.data.value.key in reg && reg[e.data.value.key] == e.data.value &&
    e.ctl.Done? && e.detach >= 0
  }

  /** The registry after one ready slot. */
  function EntryRegistry(reg: map<string, Event>, e: Entry): (r: map<string, Event>)
    reads if e.data.Some? then {e.data.value} else {}
    ensures r.Keys <= reg.Keys && forall k :: k in r ==> r[k] == reg[k]
  {
    if Detaches(reg, e) then reg - {e.data.value.key} else reg
  }

  /**
   * The user calls one ready slot makes: its callback with the translated
   * code, then, for an event without PERSIST that asked for it, the free
   * notice `epEventFd_Destroy` gives.
   */
  function EntryCalls(e: Entry): seq<Call>
    reads if e.data.Some? then {e.data.value} else {}
  {
    if e.data.None? then []
    else
      var ev := e.data.value;
      [Call(ev.fd, EvFd.AmcCodeFromEpoll(e.what))] +
      (if !AnySet(ev.events, EP_MODE_PERSIST) && AnySet(ev.events, EP_EVENT_FREE) then [Call(ev.fd, EP_EVENT_FREE)] else [])
  }

  /** The registry after the ready slots `es`, in order. */
  function ReadyRegistry(reg: map<string, Event>, es: seq<Entry>): map<string, Event>
    reads Events(es)
    decreases |es|
  {
    if es == [] then reg else EntryRegistry(ReadyRegistry(reg, es[..|es| - 1]), es[|es| - 1])
  }

  /** The user calls the ready slots `es` make, in order. */
  function ReadyCalls(es: seq<Entry>): seq<Call>
    reads Events(es)
    decreases |es|
  {
    if es == [] then [] else ReadyCalls(es[..|es| - 1]) + EntryCalls(es[|es| - 1])
  }

  /** The ready slots one wait filled. */
  function WaitEntries(w: Wait): seq<Entry>
  {
    if w.Ready? then w.entries else []
  }

  /** The ready slots of the waits `ws`, in order. */
  function Flatten(ws: seq<Wait>): seq<Entry>
    decreases |ws|
  {
    if ws == [] then [] else Flatten(ws[..|ws| - 1]) + WaitEntries(ws[|ws| - 1])
  }

  lemma FlattenStep(ws: seq<Wait>, n: nat)
    requires n < |ws|
    ensures Flatten(ws[..n + 1]) == Flatten(ws[..n]) + WaitEntries(ws[n])
  {
    assert ws[..n + 1][..n] == ws[..n];
  }

  /**
   * How `_dispatch_main_loop` ends after `rounds` waits: it returns only
   * after the first fatal wait failure, with that errno turned negative and
   * the status left at exactly EPOLL_ERROR; with no fatal failure it never
   * returns and is still RUNNING.
   */
  predicate LoopEnds(waits: seq<Wait>, out: Outcome, rounds: nat, status: Mask)
  {
    rounds <= |waits| &&
    (forall k :: 0 <= k < rounds - 1 ==> !Fatal(waits[k])) &&
    match out
    case Returned(ret) =>
      0 < rounds && Fatal(waits[rounds - 1]) && ret == ReturnErr(waits[rounds - 1].errno).ret &&
      status == EP_STAT_EPOLL_ERROR
    case Hang => rounds == |waits| && (0 < rounds ==> !Fatal(waits[rounds - 1])) && status == EP_STAT_RUNNING
    case Crash => false
  }

  /** The loop returns exactly when some wait fails fatally, and what it returns is then negative. */
  lemma LoopEndsMeans(waits: seq<Wait>, out: Outcome, rounds: nat, status: Mask)
    requires LoopEnds(waits, out, rounds, status)
    ensures out.Returned? <==> exists k :: 0 <= k < |waits| && Fatal(waits[k])
    ensures out.Returned? ==> out.ret < 0 && rounds - 1 == FirstFatal(waits)
    ensures !out.Crash?
  {
    if out.Returned? {
      FirstFatalIsFirst(waits, rounds - 1);
    }
  }

  /** The index of the first fatal wait failure; |waits| when there is none. */
  function FirstFatal(waits: seq<Wait>): (k: nat)
    ensures k <= |waits|
    ensures forall j :: 0 <= j < k ==> !Fatal(waits[j])
    ensures k < |waits| ==> Fatal(waits[k])
    decreases |waits|
  {
    if waits == [] then 0
    else if Fatal(waits[0]) then 0
    else 1 + FirstFatal(waits[1..])
  }

  /** A fatal failure with no fatal failure before it is the first one. */
  lemma FirstFatalIsFirst(waits: seq<Wait>, k: nat)
    requires k < |waits| && Fatal(waits[k]) && forall j :: 0 <= j < k ==> !Fatal(waits[j])
    ensures FirstFatal(waits) == k
  {
  }

  /** The registry only loses entries, and keeps the event of every key it keeps. */
  lemma {:induction false} ReadyRegistryShrinks(reg: map<string, Event>, es: seq<Entry>)
    ensures ReadyRegistry(reg, es).Keys <= reg.Keys
    ensures forall k :: k in ReadyRegistry(reg, es) ==> ReadyRegistry(reg, es)[k] == reg[k]
    decreases |es|
  {
    if es != [] {
      ReadyRegistryShrinks(reg, es[..|es| - 1]);
    }
  }

  /** Handling the slots of `a + b` is handling those of `a`, then those of `b`. */
  lemma {:induction false} ReadyRegistryAppend(reg: map<string, Event>, a: seq<Entry>, b: seq<Entry>)
    ensures ReadyRegistry(reg, a + b) == ReadyRegistry(ReadyRegistry(reg, a), b)
    decreases |b|
  {
    if b == [] {
      assert a + b == a;
    } else {
      assert (a + b)[..|a + b| - 1] == a + b[..|b| - 1];
      assert (a + b)[|a + b| - 1] == b[|b| - 1];
      ReadyRegistryAppend(reg, a, b[..|b| - 1]);
    }
  }

  /** The calls of the slots `a + b` are those of `a`, then those of `b`. */
  lemma {:induction false} ReadyCallsAppend(a: seq<Entry>, b: seq<Entry>)
    ensures ReadyCalls(a + b) == ReadyCalls(a) + ReadyCalls(b)
    decreases |b|
  {
    if b == [] {
      assert a + b == a;
    } else {
      assert (a + b)[..|a + b| - 1] == a + b[..|b| - 1];
      assert (a + b)[|a + b| - 1] == b[|b| - 1];
      ReadyCallsAppend(a, b[..|b| - 1]);
    }
  }

  /** An event with PERSIST that is registered under a key stays registered there, whatever fires. */
  lemma {:induction false} PersistentStays(reg: map<string, Event>, es: seq<Entry>, key: string)
    requires key in reg && AnySet(reg[key].events, EP_MODE_PERSIST)
    ensures key in ReadyRegistry(reg, es) && ReadyRegistry(reg, es)[key] == reg[key]
    decreases |es|
  {
    if es != [] {
      PersistentStays(reg, es[..|es| - 1], key);
    }
  }

  /**
   * A one-shot event that fires while registered, and whose detach succeeds,
   * is no longer registered under its key once the slots are handled.
   */
  lemma OneShotGone(reg: map<string, Event>, es: seq<Entry>, p: nat)
    requires p < |es|
    requires Detaches(ReadyRegistry(reg, es[..p]), es[p])
    ensures es[p].data.value.key !in ReadyRegistry(reg, es)
  {
    var key := es[p].data.value.key;
    assert es[..p + 1][..p] == es[..p];
    assert es == es[..p + 1] + es[p + 1..];
    ReadyRegistryAppend(reg, es[..p + 1], es[p + 1..]);
    ReadyRegistryShrinks(ReadyRegistry(reg, es[..p + 1]), es[p + 1..]);
  }

  /**
   * The one-shot path destroys the event even when its detach fails: the
   * free notice is given, and the released event stays registered.
   */
  lemma FailedDetachKeepsEvent(reg: map<string, Event>, e: Entry)
    requires e.data.Some? && !AnySet(e.data.value.events, EP_MODE_PERSIST) && AnySet(e.data.value.events, EP_EVENT_FREE)
    requires e.data.value.key in reg && reg[e.data.value.key] == e.data.value && e.ctl.Failed?
    ensures EntryRegistry(reg, e) == reg && e.data.value.key in EntryRegistry(reg, e)
    ensures Call(e.data.value.fd, EP_EVENT_FREE) in EntryCalls(e)
  {
    assert EntryCalls(e)[1] == Call(e.data.value.fd, EP_EVENT_FREE);
  }

  /** A free notice goes only to a one-shot event that asked for one. */
  lemma {:induction false} FreeNoticeOnlyOneShot(es: seq<Entry>, i: nat)
    requires i < |ReadyCalls(es)| && AnySet(ReadyCalls(es)[i].what, EP_EVENT_FREE)
    ensures exists e :: (e in es && e.data.Some? && e.data.value.fd == ReadyCalls(es)[i].fd &&
      !AnySet(e.data.value.events, EP_MODE_PERSIST) && AnySet(e.data.value.events, EP_EVENT_FREE))
    decreases |es|
  {
    var init := es[..|es| - 1];
    var last := es[|es| - 1];
    if i < |ReadyCalls(init)| {
      FreeNoticeOnlyOneShot(init, i);
      var e :| e in init && e.data.Some? && e.data.value.fd == ReadyCalls(es)[i].fd &&
        !AnySet(e.data.value.events, EP_MODE_PERSIST) && AnySet(e.data.value.events, EP_EVENT_FREE);
      assert e in es;
    } else {
      var j := i - |ReadyCalls(init)|;
      assert ReadyCalls(es)[i] == EntryCalls(last)[j];
      assert j == 1 || AnySet(EvFd.AmcCodeFromEpoll(last.what), EP_EVENT_FREE);
      assert last in es;
    }
  }

  /** A slot whose data pointer is NULL is skipped. */
  lemma NullSlotSkipped(reg: map<string, Event>, es: seq<Entry>, e: Entry)
    requires e.data.None?
    ensures ReadyRegistry(reg, es + [e]) == ReadyRegistry(reg, es)
    ensures ReadyCalls(es + [e]) == ReadyCalls(es)
  {
    assert (es + [e])[..|es|] == es;
  }

  /** The loop body for one ready slot. */
  method HandleEntry(base: Base, e: Entry) returns (c: seq<Call>)
    modifies base
    ensures base.registry == EntryRegistry(old(base.registry), e)
    ensures c == EntryCalls(e)
    ensures base.status == old(base.status)
  {
    if e.data.None? {
      return [];
    }
    var ev := e.data.value;
    c := [UserCall(ev, EvFd.AmcCodeFromEpoll(e.what))];
    if !AnySet(ev.events, EP_MODE_PERSIST) {
      var detached := EvFd.DetachFromBase(base, ev, e.ctl, e.detach);
      // The loop ignores what the destroy returns, so the release's result is immaterial here.
      var freed, notice := Destroy(ev, 0);
      if notice.Some? {
        c := c + [notice.value];
      }
    }
  }

  /** The `for` loop over the slots one `epoll_wait` filled. */
  method HandleRound(base: Base, entries: seq<Entry>) returns (calls: seq<Call>)
    modifies base
    ensures base.registry == ReadyRegistry(old(base.registry), entries)
    ensures calls == ReadyCalls(entries)
    ensures base.status == old(base.status)
  {
    calls := [];
    for j := 0 to |entries|
      invariant base.status == old(base.status)
      invariant base.registry == ReadyRegistry(old(base.registry), entries[..j])
      invariant calls == ReadyCalls(entries[..j])
    {
      assert entries[..j + 1][..j] == entries[..j];
      label Before:
      var c := HandleEntry(base, entries[j]);
      assert forall ev | ev in Events(entries[..j]) :: unchanged@Before(ev);
      calls := calls + c;
    }
    assert entries[..|entries|] == entries;
  }

  /**
   * The body of the main loop for one `epoll_wait` result: a fatal failure
   * sets EPOLL_ERROR and ends the loop, EINTR and a round with no ready
   * slots change nothing, and ready slots are handled in order.  `calls0`
   * and `done` are the calls made and the slots handled before.
   */
  method HandleWait(base: Base, w: Wait, calls0: seq<Call>, ghost reg0: map<string, Event>, ghost done: seq<Entry>)
    returns (calls: seq<Call>, stop: bool)
    requires base.registry == ReadyRegistry(reg0, done) && calls0 == ReadyCalls(done)
    modifies base
    ensures stop == Fatal(w)
    ensures base.status == if stop then old(base.status) | EP_STAT_EPOLL_ERROR else old(base.status)
    ensures base.registry == ReadyRegistry(reg0, done + WaitEntries(w))
    ensures calls == ReadyCalls(done + WaitEntries(w))
  {
    assert done + [] == done;
    label Start:
    if w.WaitFailed? {
      calls, stop := calls0, false;
      if w.errno != EINTR {
        base.status := base.status | EP_STAT_EPOLL_ERROR;
        stop := true;
      }
    } else {
      var c := HandleRound(base, w.entries);
      calls, stop := calls0 + c, false;
      ReadyRegistryAppend(reg0, done, w.entries);
      ReadyCallsAppend(done, w.entries);
    }
    assert forall ev | ev in Events(done) :: unchanged@Start(ev);
  }

  /**
   * `_dispatch_main_loop`: the status becomes exactly RUNNING, whatever it
   * was; every wait is handled in turn until one fails fatally; on the way
   * out SHOULD_EXIT and RUNNING are cleared.  `rounds` is the number of waits
   * made.
   */
  method DispatchMainLoop(base: Base, waits: seq<Wait>) returns (out: Outcome, calls: seq<Call>, rounds: nat)
    modifies base
    ensures LoopEnds(waits, out, rounds, base.status)
    ensures base.registry == ReadyRegistry(old(base.registry), Flatten(waits[..rounds]))
    ensures calls == ReadyCalls(Flatten(waits[..rounds]))
  {
    base.status := 0;
    base.status := base.status | EP_STAT_RUNNING;
    var shouldExit := false;
    var errCpy := 0;
    calls := [];
    rounds := 0;
    ghost var reg0 := base.registry;
    while !shouldExit && rounds < |waits|
      invariant rounds <= |waits|
      invariant !shouldExit ==> base.status == EP_STAT_RUNNING && forall k :: 0 <= k < rounds ==> !Fatal(waits[k])
      invariant shouldExit ==>
        0 < rounds && Fatal(waits[rounds - 1]) && errCpy == waits[rounds - 1].errno &&
        (forall k :: 0 <= k < rounds - 1 ==> !Fatal(waits[k])) &&
        base.status == EP_STAT_RUNNING | EP_STAT_EPOLL_ERROR
      invariant base.registry == ReadyRegistry(reg0, Flatten(waits[..rounds]))
      invariant calls == ReadyCalls(Flatten(waits[..rounds]))
      decreases |waits| - rounds
    {
      FlattenStep(waits, rounds);
      if waits[rounds].WaitFailed? {
        errCpy := waits[rounds].errno;
      }
      calls, shouldExit := HandleWait(base, waits[rounds], calls, reg0, Flatten(waits[..rounds]));
      rounds := rounds + 1;
    }
    if !shouldExit {
      return Hang, calls, rounds;
    }
    label Clear:
    base.status := base.status & !(EP_STAT_SHOULD_EXIT | EP_STAT_RUNNING);
    assert forall ev | ev in Events(Flatten(waits[..rounds])) :: unchanged@Clear(ev);
    out := if base.status & EP_STAT_EPOLL_ERROR != 0 then Returned(ReturnErr(errCpy).ret) else Returned(0);
  }

  /** `AMCEpoll_Dispatch`: EINVAL without a reactor, 0 at once when nothing is registered, else the main loop. */
  method Dispatch(base: Base?, waits: seq<Wait>) returns (out: Outcome, calls: seq<Call>, rounds: nat)
    modifies base
    ensures base == null ==> out == Returned(ReturnErr(EINVAL).ret) && calls == [] && rounds == 0
    ensures base != null && |old(base.registry)| == 0 ==>
      out == Returned(0) && calls == [] && rounds == 0 && base.registry == old(base.registry) && base.status == old(base.status)
    ensures base != null && |old(base.registry)| > 0 ==>
      LoopEnds(waits, out, rounds, base.status) &&
      base.registry == ReadyRegistry(old(base.registry), Flatten(waits[..rounds])) &&
      calls == ReadyCalls(Flatten(waits[..rounds]))
  {
    if base == null {
      return Returned(ReturnErr(EINVAL).ret), [], 0;
    }
    if |base.registry| == 0 {
      return Returned(0), [], 0;
    }
    out, calls, rounds := DispatchMainLoop(base, waits);
  }

  /**
   * `AMCEpoll_LoopExit`: sets SHOULD_EXIT and returns 0.  The main loop
   * never reads the flag and overwrites the status when it starts.
   */
  method LoopExit(base: Base?) returns (r: int)
    modifies base
    ensures base == null ==> r == ReturnErr(EINVAL).ret
    ensures base != null ==> r == 0 && base.status == old(base.status) | EP_STAT_SHOULD_EXIT && base.registry == old(base.registry)
  {
    if base == null {
      return ReturnErr(EINVAL).ret;
    }
    base.status := base.status | EP_STAT_SHOULD_EXIT;
    return 0;
  }

  /**
   * `AMCEpoll_New`: NULL with EINVAL for a zero buffer size; NULL when the
   * allocation, `epoll_create` (result `epollFd`) or the registry creation
   * fails, after the partial reactor is freed (which closes a positive
   * epoll descriptor, reported in `closed`); otherwise an empty reactor.
   * Its timeout chain is left uninitialised.
   */
  method New(buffSize: nat, allocOk: bool, epollFd: int, assocOk: bool) returns (b: Base?, errno: Option<int>, closed: Option<int>)
    ensures b == null <==> buffSize == 0 || !allocOk || epollFd < 0 || !assocOk
    ensures buffSize == 0 ==> errno == Some(EINVAL)
    ensures buffSize > 0 ==> errno == None
    ensures closed.Some? <==> buffSize > 0 && allocOk && epollFd > 0 && !assocOk
    ensures closed.Some? ==> closed.value == epollFd
    ensures b != null ==> fresh(b) && fresh(b.chain) && b.epollFd == epollFd && b.buffSize == buffSize
    ensures b != null ==> b.status == 0 && b.registry == map[] && b.chain.State() == Chain(false, map[], map[])
  {
    if buffSize == 0 {
      return null, Some(EINVAL), None;
    }
    if !allocOk {
      return null, None, None;
    }
    if epollFd < 0 {
      return null, None, None;
    }
    if !assocOk {
      closed := if epollFd > 0 then Some(epollFd) else None;
      return null, None, closed;
    }
    var chain := new TimeoutChain();
    b := new Base(epollFd, buffSize, chain);
    errno, closed := None, None;
  }

  /**
   * `AMCEpoll_NewFileEvent`: signal masks and then timeout masks give NULL
   * (those variants are not wired in), a file mask creates a file-descriptor
   * event, anything else gives NULL.
   */
  method NewFileEvent(fd: CInt, events: Mask, timeout: int, callback: nat, userData: nat, addr: nat, allocOk: bool)
    returns (e: Event?, errno: Option<int>)
    requires 0 < addr < 0x1_0000_0000_0000_0000
    ensures EvSignal.IsSignalEvent(events) || EvTimeout.CheckTimeoutEvents(events) || !EvFd.IsFileEvent(events) ==>
      e == null && errno == None
    ensures e != null ==> fresh(e) && e.variant == Some(FdVariant) && e.events == events && e.fd == fd && e.key == FdKey(fd)
    ensures !EvSignal.IsSignalEvent(events) && EvFd.IsFileEvent(events) ==>
      (e == null <==> fd < 0 || callback == 0 || !allocOk) &&
      (fd < 0 || callback == 0 ==> errno == Some(EINVAL))
  {
    if EvSignal.IsSignalEvent(events) {
      return null, None;
    }
    if EvTimeout.CheckTimeoutEvents(events) {
      return null, None;
    }
    if EvFd.IsFileEvent(events) {
      EvFd.CheckEventsIsFileEvent(events);
      e, errno := EvFd.Create(fd, events, timeout, callback, userData, addr, allocOk);
      return;
    }
    return null, None;
  }

  /**
   * `AMCEpoll_FreeEvent`: only a file-descriptor event is destroyed; anything
   * else is EINVAL.  `freed` is the release's result, as for `Destroy`.
   */
  method FreeEvent(event: Event?, freed: int) returns (r: Report, notice: Option<Call>)
    ensures event == null || event.variant != Some(FdVariant) ==> r == ReturnErr(EINVAL) && notice == None
    ensures event != null && event.variant == Some(FdVariant) ==>
      r == Report(freed, None) && (notice.Some? <==> AnySet(event.events, EP_EVENT_FREE)) &&
      (notice.Some? ==> notice.value == Call(event.fd, EP_EVENT_FREE))
  {
    if event == null || event.variant != Some(FdVariant) {
      return ReturnErr(EINVAL), None;
    }
    r, notice := Destroy(event, freed);
  }

  /**
   * `AMCEpoll_AddEvent`: only a file-descriptor event is attached, by
   * `epEventFd_AddToBase`; anything else is EINVAL.  A failed epoll add whose
   * registry rollback also fails leaves the event registered.
   */
  method AddEvent(base: Base?, event: Event?, reg: int, regErrno: int, ctl: Sys, rollback: int) returns (r: Report)
    requires event != null && event.variant == Some(FdVariant) ==> event.key == FdKey(event.fd)
    modifies base
    ensures base == null || event == null || event.variant != Some(FdVariant) ==> r == ReturnErr(EINVAL)
    ensures base != null && (event == null || event.variant != Some(FdVariant)) ==> base.registry == old(base.registry)
    ensures base != null && event != null && event.variant == Some(FdVariant) ==>
      (old(base.Lookup(event.key)).None? ==>
        (r == Report(0, None) <==> reg >= 0 && ctl.Done?) &&
        base.registry == if reg >= 0 && (ctl.Done? || rollback < 0) then old(base.registry)[event.key := event] else old(base.registry)) &&
      (old(base.Member(event)) ==>
        r == (if ctl.Done? then Report(0, None) else ReturnErr(ctl.errno)) && base.registry == old(base.registry)) &&
      (old(base.Lookup(event.key)).Some? && !old(base.Member(event)) ==>
        r == ReturnErr(EEXIST) && base.registry == old(base.registry))
  {
    if base == null || event == null {
      return ReturnErr(EINVAL);
    }
    if event.variant != Some(FdVariant) {
      return ReturnErr(EINVAL);
    }
    r := EvFd.AddToBase(base, event, reg, regErrno, ctl, rollback);
  }

  /**
   * `AMCEpoll_DelEvent`: EINVAL for NULL arguments or an event without a
   * variant (no detach function); otherwise the variant's detach, whose
   * result is returned.  `ctl` and `detach` are the results the fd detach
   * gets, `g1` and `g2` those of the signal release, `detach` also the
   * registry removal of the other variants, and `s` the chain's stores.
   */
  method DelEvent(base: Base?, table: EvSignal.SignalTable, event: Event?, ctl: Sys, detach: int, g1: Sys, g2: Sys, s: Stores)
    returns (out: Outcome)
    requires table.Valid()
    requires event != null && event.variant == Some(SignalVariant) ==> 0 < event.fd <= SIGNAL_NUM_MAX
    requires event != null && event.variant == Some(TimeoutVariant) ==> 0 < event.addr < 0x1_0000_0000_0000_0000
    modifies base, table.pipes, event, if base != null then {base.chain} else {}
    ensures event != null ==> event.Settings() == old(event.Settings())
    ensures base == null || event == null || event.variant == None ==> out == Returned(ReturnErr(EINVAL).ret)
    ensures base != null && event != null && event.variant == None ==> base.registry == old(base.registry)
    ensures base != null && event != null && event.variant == Some(FdVariant) ==>
      out == Returned(EvFd.DetachResult(old(base.Member(event)), ctl, detach).ret) &&
      base.registry == if old(base.Member(event)) && ctl.Done? && detach >= 0 then old(base.registry) - {event.key} else old(base.registry)
    ensures base != null && event != null && event.variant == Some(SignalVariant) ==>
      out.Returned? &&
      (!old(base.Member(event)) ==> out == Returned(ReturnErr(ENOENT).ret) && base.registry == old(base.registry)) &&
      (old(base.Member(event)) ==>
        var d := EvSignal.DelEventStep(old(EvSignal.SigOf(table, event)), g1, g2);
        EvSignal.SigOf(table, event) == d.st &&
        (d.ret < 0 ==> out == Returned(d.ret) && base.registry == old(base.registry)) &&
        (d.ret >= 0 ==> (out == Returned(detach) &&
          base.registry == if detach >= 0 then old(base.registry) - {event.key} else old(base.registry))))
    ensures base != null && event != null && event.variant == Some(TimeoutVariant) ==>
      (!old(base.Member(event)) ==> out == Returned(EpErr(AMC_EP_ERR_OBJ_NOT_FOUND).ret) && base.registry == old(base.registry)) &&
      (old(base.Member(event)) && detach < 0 ==> out == Returned(detach) && base.registry == old(base.registry)) &&
      (old(base.Member(event)) && detach >= 0 ==>
        base.registry == old(base.registry) - {event.key} &&
        (!old(base.chain.initOK) ==> out == Returned(EpErr(AMC_EP_ERR_BASE_TIMEOUT_NOT_INIT).ret)) &&
        (old(base.chain.initOK) ==> Step(base.chain.State(), out) == DelObj(old(base.chain.State()), event.addr, s)))
  {
    if base == null || event == null || event.variant == None {
      return Returned(ReturnErr(EINVAL).ret);
    }
    match event.variant.value {
      case FdVariant =>
        var r := EvFd.DetachFromBase(base, event, ctl, detach);
        out := Returned(r.ret);
      case SignalVariant =>
        var r := EvSignal.DetachFromBase(base, table, event, g1, g2, ctl, detach);
        out := Returned(r);
      case TimeoutVariant =>
        out := EvTimeout.DetachFromBase(base, event, detach, s);
    }
  }

  /**
   * `AMCEpoll_DelAndFreeEvent`: `AMCEpoll_DelEvent` (its outcome is
   * `detached`), then, only when that returned 0, `AMCEpoll_FreeEvent`
   * (whose release gives `freed`).
   */
  method DelAndFreeEvent(base: Base?, table: EvSignal.SignalTable, event: Event?, ctl: Sys, detach: int, g1: Sys, g2: Sys, s: Stores, freed: int)
    returns (out: Outcome, detached: Outcome, notice: Option<Call>)
    requires table.Valid()
    requires event != null && event.variant == Some(SignalVariant) ==> 0 < event.fd <= SIGNAL_NUM_MAX
    requires event != null && event.variant == Some(TimeoutVariant) ==> 0 < event.addr < 0x1_0000_0000_0000_0000
    modifies base, table.pipes, event, if base != null then {base.chain} else {}
    ensures detached != Returned(0) ==> out == detached && notice == None
    ensures detached == Returned(0) ==> base != null && event != null && event.variant.Some?
    ensures detached == Returned(0) && event.variant == Some(FdVariant) ==>
      out == Returned(freed) && base.registry == old(base.registry) - {event.key} &&
      (notice.Some? <==> AnySet(event.events, EP_EVENT_FREE))
    ensures detached == Returned(0) && event.variant != Some(FdVariant) ==>
      out == Returned(ReturnErr(EINVAL).ret) && notice == None
  {
    detached := DelEvent(base, table, event, ctl, detach, g1, g2, s);
    if detached != Returned(0) {
      return detached, detached, None;
    }
    var r;
    r, notice := FreeEvent(event, freed);
    out := Returned(r.ret);
  }
}
