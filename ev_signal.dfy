// src/epEventSignal.c: the signal event variant.  A signal event owns a
// self-pipe; the process-wide table `_signal_pipes` maps a signal number to
// the write end of the pipe its handler writes into.  Claiming a slot,
// releasing it and the event's pipe fields are modelled on one value,
// `SigState`, and the methods that update the table and the event in place
// are proved to follow those functions.  `pipe`, `sigaction` and
// `epoll_ctl` are results passed in; the mutex is left out (one thread).
module EvSignal {
  import opened Wrappers
  import opened Errno
  import opened EpCommon
  import opened EpEvent

  /** The epoll bits every signal event asks for. */
  const SIGNAL_EPOLL_BASE: Mask := EPOLLIN | EPOLLPRI | EPOLLET

  /** `_signal_epoll_code_from_amc_code`. */
  function SignalEpollCode(amc: Mask): (r: Mask)
    ensures AllSet(r, SIGNAL_EPOLL_BASE)
    ensures AnySet(r, EPOLLONESHOT) <==> !AnySet(amc, EP_MODE_PERSIST)
    ensures r & !(SIGNAL_EPOLL_BASE | EPOLLONESHOT) == 0
  {
    if AnySet(amc, EP_MODE_PERSIST) then SIGNAL_EPOLL_BASE else SIGNAL_EPOLL_BASE | EPOLLONESHOT
  }

  /** Only the persist bit of a signal event's mask reaches epoll. */
  lemma SignalEpollCodeOnlyPersist(a: Mask, b: Mask)
    requires AnySet(a, EP_MODE_PERSIST) == AnySet(b, EP_MODE_PERSIST)
    ensures SignalEpollCode(a) == SignalEpollCode(b)
  {
  }

  /** `_amc_code_from_signal_epoll_code`: exactly one bit, ERROR on a hang-up or error, else SIGNAL. */
  function AmcCodeFromSignalEpoll(epoll: Mask): (r: Mask)
    ensures r == EP_EVENT_ERROR || r == EP_EVENT_SIGNAL
    ensures r == EP_EVENT_ERROR <==> AnySet(epoll, EPOLLERR | EPOLLHUP)
  {
    if AnySet(epoll, EPOLLERR | EPOLLHUP) then EP_EVENT_ERROR else EP_EVENT_SIGNAL
  }

  /** `_check_sig_event_code`. */
  predicate CheckSigEventCode(events: Mask)
  {
    events != 0 && AllSet(events, EP_EVENT_SIGNAL)
  }

  /** `epEventSignal_IsSignalEvent`. */
  predicate IsSignalEvent(what: Mask)
  {
    AnySet(what, EP_EVENT_SIGNAL)
  }

  /** SIGNAL is a single bit, so the validity check and the type test agree. */
  lemma CheckSigEventCodeIsSignalEvent(m: Mask)
    ensures CheckSigEventCode(m) <==> IsSignalEvent(m)
  {
  }

  /** A valid signal event's callback always runs when its pipe becomes readable without error. */
  lemma SignalGateOpen(events: Mask, epoll: Mask)
    requires CheckSigEventCode(events) && !AnySet(epoll, EPOLLERR | EPOLLHUP)
    ensures HaveIntrset(AmcCodeFromSignalEpoll(epoll), events)
  {
  }

  // ---------------------------------------------------------------- the table slot and the pipe

  /** What `pipe()` reports: the two ends, or failure with errno. */
  datatype Pipe = PipeOk(readFd: nat, writeFd: nat) | PipeFailed(errno: int)

  /** One table slot and one event's pipe ends: everything the claim and release rules touch. */
  datatype SigState = SigState(slot: int, read: int, write: int)

  /** A new `SigState` and the C result that goes with it. */
  datatype SigStep = SigStep(st: SigState, ret: int)

  /** A slot claim: the new slot, and the errno of a failure. */
  datatype Claim = Claim(slot: int, err: Option<int>)

  /**
   * The locked section shared by `_signal_add_LOCKED` and
   * `_signal_re_add_LOCKED`: a free slot (<= 0) or one already holding this
   * pipe is taken and the handler installed (`capture`); a slot held by
   * another pipe is a conflict; a failing `sigaction` frees the slot.
   */
  function ClaimSlot(slot: int, writeFd: int, capture: Sys): (c: Claim)
    ensures c.err.None? <==> (slot <= 0 || slot == writeFd) && capture.Done?
    ensures c.err.None? ==> c.slot == writeFd
    ensures slot > 0 && slot != writeFd ==> c == Claim(slot, Some(EEXIST))
    ensures (slot <= 0 || slot == writeFd) && capture.Failed? ==> c == Claim(-1, Some(capture.errno))
  {
    if slot <= 0 || slot == writeFd then
      if capture.Done? then Claim(writeFd, None) else Claim(-1, Some(capture.errno))
    else Claim(slot, Some(EEXIST))
  }

  /**
   * `_signal_add_LOCKED`: open the pipe, claim the slot for its write end;
   * on any failure close the pipe when its read end is non-zero (both ends
   * become -1) and return the errno, negated.
   */
  function Add(s: SigState, pipe: Pipe, capture: Sys): (t: SigStep)
    ensures t.ret == 0 <==> pipe.PipeOk? && ClaimSlot(s.slot, pipe.writeFd, capture).err.None?
    ensures t.ret == 0 ==> t.st == SigState(pipe.writeFd, pipe.readFd, pipe.writeFd)
    ensures t.ret != 0 ==> t.ret < 0 && t.st.read <= 0
    ensures t.ret != 0 ==> t.st.slot == s.slot || t.st.slot == -1
    ensures s.slot > 0 && (pipe.PipeFailed? || s.slot != pipe.writeFd) ==> t.st.slot == s.slot
  {
    match pipe
    case PipeFailed(errno) =>
      SigStep(if s.read != 0 then SigState(s.slot, -1, -1) else s, ReturnErr(errno).ret)
    case PipeOk(readFd, writeFd) =>
      var c := ClaimSlot(s.slot, writeFd, capture);
      if c.err.None? then SigStep(SigState(c.slot, readFd, writeFd), 0)
      else SigStep(SigState(c.slot, if readFd != 0 then -1 else readFd, if readFd != 0 then -1 else writeFd),
                   ReturnErr(c.err.value).ret)
  }

  /**
   * `_signal_re_add_LOCKED`: without an open pipe (read end <= 0) this is
   * `_signal_add_LOCKED`; otherwise the slot is claimed again for the
   * existing write end, and a failure leaves the pipe open.
   */
  function ReAdd(s: SigState, pipe: Pipe, capture: Sys): (t: SigStep)
    ensures s.read <= 0 ==> t == Add(s, pipe, capture)
    ensures s.read > 0 ==> t.st.read == s.read && t.st.write == s.write
    ensures s.read > 0 ==> (t.ret == 0 <==> ClaimSlot(s.slot, s.write, capture).err.None?)
    ensures t.ret == 0 ==> t.st.slot == t.st.write
    ensures t.ret != 0 ==> t.ret < 0 && (t.st.slot == s.slot || t.st.slot == -1)
  {
    if s.read <= 0 then Add(s, pipe, capture)
    else
      var c := ClaimSlot(s.slot, s.write, capture);
      SigStep(SigState(c.slot, s.read, s.write), if c.err.None? then 0 else ReturnErr(c.err.value).ret)
  }

  /**
   * `_signal_del_LOCKED`: a slot holding this event's write end is freed and
   * the default action restored (`giveup`, whose failure is -1); an open
   * pipe (read end > 0) is closed, both ends becoming -1.
   */
  function Del(s: SigState, giveup: Sys): (t: SigStep)
    ensures t.st.slot == (if s.slot == s.write then -1 else s.slot)
    ensures t.st.read <= 0
    ensures s.read > 0 ==> t.st.read == -1 && t.st.write == -1
    ensures s.read <= 0 ==> t.st.read == s.read && t.st.write == s.write
    ensures t.ret == 0 || (t.ret == -1 && s.slot == s.write && giveup.Failed?)
  {
    var ret := if s.slot == s.write && giveup.Failed? then -1 else 0;
    SigStep(SigState(if s.slot == s.write then -1 else s.slot,
                     if s.read > 0 then -1 else s.read,
                     if s.read > 0 then -1 else s.write), ret)
  }

  /** Releasing right after a successful claim frees the slot and closes the pipe. */
  lemma AddThenDel(s: SigState, pipe: Pipe, capture: Sys, giveup: Sys)
    requires Add(s, pipe, capture).ret == 0
    ensures Del(Add(s, pipe, capture).st, giveup).st.slot == -1
    ensures pipe.readFd > 0 ==> Del(Add(s, pipe, capture).st, giveup).st == SigState(-1, -1, -1)
  {
  }

  /** A release never frees a slot another pipe holds. */
  lemma DelKeepsOtherHolder(s: SigState, giveup: Sys)
    requires s.slot > 0 && s.slot != s.write
    ensures Del(s, giveup).st.slot == s.slot
  {
  }

  /** A second release changes nothing more: the state after two is the state after one. */
  lemma DelIdempotent(s: SigState, g1: Sys, g2: Sys)
    ensures Del(Del(s, g1).st, g2).st == Del(s, g1).st
  {
    var d := Del(s, g1).st;
    if s.read > 0 {
      assert d.write == -1;
    } else {
      assert d.write == s.write;
    }
  }

  /**
   * `_add_signal_event_LOCKED` after the registration (`reg`): add the pipe,
   * then put its read end in the epoll set (`ctl`); when that fails the pipe
   * is released again and the epoll errno returned.  The registration itself
   * is never undone here.
   */
  function AddEventStep(s: SigState, reg: int, pipe: Pipe, capture: Sys, ctl: Sys, giveup: Sys): (t: SigStep)
    ensures t.ret == 0 <==> reg >= 0 && Add(s, pipe, capture).ret == 0 && ctl.Done?
    ensures t.ret == 0 ==> pipe.PipeOk? && t.st == SigState(pipe.writeFd, pipe.readFd, pipe.writeFd)
    ensures reg < 0 ==> t == SigStep(s, reg)
    ensures reg >= 0 && t.ret != 0 ==> t.st.read <= 0 && (t.st.slot == s.slot || t.st.slot == -1)
  {
    if reg < 0 then SigStep(s, reg)
    else
      var a := Add(s, pipe, capture);
      if a.ret < 0 then a
      else if ctl.Done? then SigStep(a.st, 0)
      else
        AddThenDel(s, pipe, capture, giveup);
        SigStep(Del(a.st, giveup).st, ReturnErr(ctl.errno).ret)
  }

  /** `_mod_signal_event_LOCKED`: re-add, then modify the epoll entry (`ctl`); a failure there releases the pipe. */
  function ModEventStep(s: SigState, pipe: Pipe, capture: Sys, ctl: Sys, giveup: Sys): (t: SigStep)
    ensures t.ret == 0 <==> ReAdd(s, pipe, capture).ret == 0 && ctl.Done?
    ensures t.ret == 0 ==> t.st.slot == t.st.write
    ensures ReAdd(s, pipe, capture).ret == 0 && ctl.Failed? ==> t.st.slot == -1 && t.st.read <= 0
  {
    var a := ReAdd(s, pipe, capture);
    if a.ret < 0 then a
    else if ctl.Done? then SigStep(a.st, 0)
    else SigStep(Del(a.st, giveup).st, ReturnErr(ctl.errno).ret)
  }

  /**
   * `_del_signal_event_LOCKED`: release, and when that succeeds try the epoll
   * removal (a no-op, the pipe being closed already) and release once more,
   * returning the second result.
   */
  function DelEventStep(s: SigState, g1: Sys, g2: Sys): (t: SigStep)
    ensures t.st == Del(s, g1).st
    ensures t.st.slot == (if s.slot == s.write then -1 else s.slot)
    ensures t.st.read <= 0
  {
    var d := Del(s, g1);
    if d.ret < 0 then d
    else
      DelIdempotent(s, g1, g2);
      Del(d.st, g2)
  }

  /** `_epoll_signal_del`: only an open read end is removed from the epoll set. */
  function EpollSignalDel(read: int, ctl: Sys): (r: int)
    ensures read <= 0 ==> r == 0
    ensures r == 0 || (read > 0 && ctl.Failed?)
  {
    if read > 0 then (if ctl.Done? then 0 else ReturnErr(ctl.errno).ret) else 0
  }

  // ---------------------------------------------------------------- the process-wide table

  class SignalTable {
    /** `_signal_is_init`. */
    var isInit: bool
    /** `_signal_pipes`: signal number to the write end its handler writes into. */
    const pipes: array<int>

    predicate Valid()
      reads this
    {
      pipes.Length == SIGNAL_NUM_MAX + 1
    }

    /** The table as a static: zero-filled and not yet initialised. */
    constructor ()
      ensures Valid() && !isInit && fresh(pipes)
      ensures forall i :: 0 <= i < pipes.Length ==> pipes[i] == 0
    {
      isInit := false;
      pipes := new int[SIGNAL_NUM_MAX + 1](_ => 0);
    }

    /** `_signal_handler`: the descriptor a delivery of `signum` is written to, if any. */
    function Handler(signum: int): (fd: Option<int>)
      reads this, pipes
      requires Valid()
      ensures fd.Some? <==> 0 < signum <= SIGNAL_NUM_MAX && pipes[signum] > 0
      ensures fd.Some? ==> fd.value == pipes[signum] && fd.value > 0
    {
      if 0 < signum <= SIGNAL_NUM_MAX && pipes[signum] > 0 then Some(pipes[signum]) else None
    }

    /** `_init_global_variables`: every slot becomes -1, on the first call only. */
    method InitGlobals()
      requires Valid()
      modifies this, pipes
      ensures Valid() && isInit
      ensures old(isInit) ==> pipes[..] == old(pipes[..])
      ensures !old(isInit) ==> forall i :: 0 <= i < pipes.Length ==> pipes[i] == -1
      ensures !old(isInit) ==> forall signum :: Handler(signum).None?
    {
      if !isInit {
        isInit := true;
        for i := 0 to pipes.Length
          invariant isInit
          invariant forall j :: 0 <= j < i ==> pipes[j] == -1
        {
          pipes[i] := -1;
        }
      }
    }
  }

  /** The slot of the event's signal and the event's pipe ends. */
  function SigOf(table: SignalTable, event: Event): SigState
    reads table, table.pipes, event
    requires table.Valid() && 0 < event.fd <= SIGNAL_NUM_MAX
  {
    SigState(table.pipes[event.fd], event.pipeRead, event.pipeWrite)
  }

  /** `_signal_add_LOCKED` on the table and the event. */
  method SignalAdd(table: SignalTable, event: Event, pipe: Pipe, capture: Sys) returns (r: int)
    requires table.Valid() && 0 < event.fd <= SIGNAL_NUM_MAX
    modifies table.pipes, event
    ensures event.Settings() == old(event.Settings())
    ensures table.pipes[..] == old(table.pipes[..])[event.fd := table.pipes[event.fd]]
    ensures SigStep(SigOf(table, event), r) == Add(old(SigOf(table, event)), pipe, capture)
  {
    var sig := event.fd;
    var err: int;
    if pipe.PipeFailed? {
      err := pipe.errno;
    } else {
      event.pipeRead, event.pipeWrite := pipe.readFd, pipe.writeFd;
      var c := ClaimSlot(table.pipes[sig], event.pipeWrite, capture);
      table.pipes[sig] := c.slot;
      if c.err.None? {
        return 0;
      }
      err := c.err.value;
    }
    if event.pipeRead != 0 {
      event.pipeRead, event.pipeWrite := -1, -1;
    }
    r := ReturnErr(err).ret;
  }

  /** `_signal_re_add_LOCKED` on the table and the event. */
  method SignalReAdd(table: SignalTable, event: Event, pipe: Pipe, capture: Sys) returns (r: int)
    requires table.Valid() && 0 < event.fd <= SIGNAL_NUM_MAX
    modifies table.pipes, event
    ensures event.Settings() == old(event.Settings())
    ensures table.pipes[..] == old(table.pipes[..])[event.fd := table.pipes[event.fd]]
    ensures SigStep(SigOf(table, event), r) == ReAdd(old(SigOf(table, event)), pipe, capture)
  {
    if event.pipeRead <= 0 {
      r := SignalAdd(table, event, pipe, capture);
      return;
    }
    var c := ClaimSlot(table.pipes[event.fd], event.pipeWrite, capture);
    table.pipes[event.fd] := c.slot;
    r := if c.err.None? then 0 else ReturnErr(c.err.value).ret;
  }

  /** `_signal_del_LOCKED` on the table and the event. */
  method SignalDel(table: SignalTable, event: Event, giveup: Sys) returns (r: int)
    requires table.Valid() && 0 < event.fd <= SIGNAL_NUM_MAX
    modifies table.pipes, event
    ensures event.Settings() == old(event.Settings())
    ensures table.pipes[..] == old(table.pipes[..])[event.fd := table.pipes[event.fd]]
    ensures SigStep(SigOf(table, event), r) == Del(old(SigOf(table, event)), giveup)
  {
    r := 0;
    var sig := event.fd;
    if table.pipes[sig] == event.pipeWrite {
      table.pipes[sig] := -1;
      r := if giveup.Done? then 0 else -1;
    }
    if event.pipeRead > 0 {
      event.pipeRead, event.pipeWrite := -1, -1;
    }
  }

  /** `_add_signal_event_LOCKED`: register, add the pipe, add its read end to the epoll set. */
  method AddSignalEvent(base: Base, table: SignalTable, event: Event, reg: int, pipe: Pipe, capture: Sys,
                        ctl: Sys, ctlDel: Sys, giveup: Sys) returns (r: int)
    requires table.Valid() && 0 < event.fd <= SIGNAL_NUM_MAX
    modifies base, table.pipes, event
    ensures event.Settings() == old(event.Settings())
    ensures table.pipes[..] == old(table.pipes[..])[event.fd := table.pipes[event.fd]]
    ensures SigStep(SigOf(table, event), r) == AddEventStep(old(SigOf(table, event)), reg, pipe, capture, ctl, giveup)
    ensures base.registry == if reg >= 0 then old(base.registry)[event.key := event] else old(base.registry)
    ensures base.status == old(base.status)
  {
    r := base.Attach(event, event.key, reg);
    if r < 0 {
      return;
    }
    r := SignalAdd(table, event, pipe, capture);
    if r < 0 {
      return;
    }
    if ctl.Done? {
      return 0;
    }
    var err := ctl.errno;
    var _ := EpollSignalDel(event.pipeRead, ctlDel);
    var _ := SignalDel(table, event, giveup);
    r := ReturnErr(err).ret;
  }

  /** `_mod_signal_event_LOCKED`: re-add the pipe and modify its epoll entry. */
  method ModSignalEvent(table: SignalTable, event: Event, pipe: Pipe, capture: Sys, ctl: Sys, giveup: Sys)
    returns (r: int)
    requires table.Valid() && 0 < event.fd <= SIGNAL_NUM_MAX
    modifies table.pipes, event
    ensures event.Settings() == old(event.Settings())
    ensures table.pipes[..] == old(table.pipes[..])[event.fd := table.pipes[event.fd]]
    ensures SigStep(SigOf(table, event), r) == ModEventStep(old(SigOf(table, event)), pipe, capture, ctl, giveup)
  {
    r := SignalReAdd(table, event, pipe, capture);
    if r < 0 {
      return;
    }
    if ctl.Done? {
      return 0;
    }
    var _ := SignalDel(table, event, giveup);
    r := ReturnErr(ctl.errno).ret;
  }

  /**
   * `_del_signal_event_LOCKED`.  `delIssued` tells whether
   * `epoll_ctl(EPOLL_CTL_DEL)` was called: never, since the pipe is
   * closed before the epoll removal is tried.
   */
  method DelSignalEvent(table: SignalTable, event: Event, g1: Sys, g2: Sys, ctl: Sys)
    returns (r: int, delIssued: bool)
    requires table.Valid() && 0 < event.fd <= SIGNAL_NUM_MAX
    modifies table.pipes, event
    ensures event.Settings() == old(event.Settings())
    ensures table.pipes[..] == old(table.pipes[..])[event.fd := table.pipes[event.fd]]
    ensures SigStep(SigOf(table, event), r) == DelEventStep(old(SigOf(table, event)), g1, g2)
    ensures !delIssued
  {
    r := SignalDel(table, event, g1);
    delIssued := false;
    if r < 0 {
      return;
    }
    delIssued := event.pipeRead > 0;
    var _ := EpollSignalDel(event.pipeRead, ctl);
    r := SignalDel(table, event, g2);
  }

  // ---------------------------------------------------------------- public interface

  /**
   * `epEventSignal_Create`: NULL with EINVAL for a signal outside
   * 1..SIGNAL_NUM_MAX, a NULL callback or a mask without SIGNAL; otherwise
   * the table is initialised, and on a successful allocation the event has
   * no pipe yet (both ends -1), the signal number as its descriptor and the
   * key "sig_<n>".
   */
  method Create(table: SignalTable, sig: CInt, events: Mask, timeout: int, callback: nat, userData: nat,
                addr: nat, allocOk: bool) returns (e: Event?, errno: Option<int>)
    requires table.Valid() && 0 < addr < 0x1_0000_0000_0000_0000
    modifies table, table.pipes
    ensures table.Valid()
    ensures e == null <==> sig <= 0 || sig > SIGNAL_NUM_MAX || callback == 0 || !CheckSigEventCode(events) || !allocOk
    ensures sig <= 0 || sig > SIGNAL_NUM_MAX || callback == 0 || !CheckSigEventCode(events) ==>
      errno == Some(EINVAL) && table.isInit == old(table.isInit) && table.pipes[..] == old(table.pipes[..])
    ensures 0 < sig <= SIGNAL_NUM_MAX && callback != 0 && CheckSigEventCode(events) ==>
      errno == None && table.isInit &&
      (old(table.isInit) ==> table.pipes[..] == old(table.pipes[..])) &&
      (!old(table.isInit) ==> forall i :: 0 <= i < table.pipes.Length ==> table.pipes[i] == -1)
    ensures e != null ==> fresh(e) && e.addr == addr && e.fd == sig && e.pipeRead == -1 && e.pipeWrite == -1
    ensures e != null ==> e.callback == callback && e.userData == userData && e.events == events
    ensures e != null ==> e.epollEvents == SignalEpollCode(events) && e.variant == Some(SignalVariant)
    ensures e != null ==> e.key == SignalKey(sig) && e.key == "sig_" + Decimal(sig)
  {
    if sig <= 0 || sig > SIGNAL_NUM_MAX as int || callback == 0 || !CheckSigEventCode(events) {
      return null, Some(EINVAL);
    }
    table.InitGlobals();
    errno := None;
    if !allocOk {
      return null, None;
    }
    e := new Event(addr);
    e.pipeRead, e.pipeWrite := -1, -1;
    e.fd := sig;
    e.callback := callback;
    e.userData := userData;
    e.epollEvents := SignalEpollCode(events);
    e.events := events;
    e.variant := Some(SignalVariant);
    e.key := SignalKey(sig);
    CIntKeysWhole(sig);
  }

  /**
   * `epEventSignal_AddToBase`: the three-way attach decision on the event's
   * key.  Absent: `_add_signal_event_LOCKED`.  The same event:
   * `_mod_signal_event_LOCKED`.  A different event: EEXIST.
   */
  method AddToBase(base: Base?, table: SignalTable, event: Event?, reg: int, pipe: Pipe, capture: Sys,
                   ctl: Sys, ctlDel: Sys, giveup: Sys) returns (r: int)
    requires table.Valid()
    requires event != null ==> 0 < event.fd <= SIGNAL_NUM_MAX
    modifies base, table.pipes, event
    ensures base == null || event == null ==> r == ReturnErr(EINVAL).ret
    ensures event != null ==> event.Settings() == old(event.Settings())
    ensures event != null ==> table.pipes[..] == old(table.pipes[..])[event.fd := table.pipes[event.fd]]
    ensures base != null && event != null && old(base.Lookup(event.key)).None? ==>
      SigStep(SigOf(table, event), r) == AddEventStep(old(SigOf(table, event)), reg, pipe, capture, ctl, giveup) &&
      base.registry == if reg >= 0 then old(base.registry)[event.key := event] else old(base.registry)
    ensures base != null && event != null && old(base.Member(event)) ==>
      SigStep(SigOf(table, event), r) == ModEventStep(old(SigOf(table, event)), pipe, capture, ctl, giveup) &&
      base.registry == old(base.registry)
    ensures base != null && event != null && old(base.Lookup(event.key)).Some? && !old(base.Member(event)) ==>
      r == ReturnErr(EEXIST).ret && SigOf(table, event) == old(SigOf(table, event)) &&
      base.registry == old(base.registry)
    ensures base != null && event != null && r == 0 && pipe.PipeOk? && pipe.writeFd > 0 && old(base.Lookup(event.key)).None? ==>
      table.Handler(event.fd) == Some(pipe.writeFd)
    ensures base != null ==> base.status == old(base.status)
  {
    if base == null || event == null {
      return ReturnErr(EINVAL).ret;
    }
    var oldEvent := base.Lookup(event.key);
    if oldEvent.None? {
      r := AddSignalEvent(base, table, event, reg, pipe, capture, ctl, ctlDel, giveup);
    } else if oldEvent.value == event {
      r := ModSignalEvent(table, event, pipe, capture, ctl, giveup);
    } else {
      r := ReturnErr(EEXIST).ret;
    }
  }

  /**
   * `epEventSignal_DetachFromBase`: ENOENT unless the event is the one
   * registered under its key; then `_del_signal_event_LOCKED`, and on its
   * success the registry removal (result `detach`).
   */
  method DetachFromBase(base: Base?, table: SignalTable, event: Event?, g1: Sys, g2: Sys, ctl: Sys, detach: int)
    returns (r: int)
    requires table.Valid()
    requires event != null ==> 0 < event.fd <= SIGNAL_NUM_MAX
    modifies base, table.pipes, event
    ensures base == null || event == null ==> r == ReturnErr(EINVAL).ret
    ensures event != null ==> event.Settings() == old(event.Settings())
    ensures event != null ==> table.pipes[..] == old(table.pipes[..])[event.fd := table.pipes[event.fd]]
    ensures base != null && event != null && !old(base.Member(event)) ==>
      r == ReturnErr(ENOENT).ret && SigOf(table, event) == old(SigOf(table, event)) &&
      base.registry == old(base.registry)
    ensures base != null && event != null && old(base.Member(event)) ==>
      var d := DelEventStep(old(SigOf(table, event)), g1, g2);
      SigOf(table, event) == d.st &&
      (d.ret < 0 ==> r == d.ret && base.registry == old(base.registry)) &&
      (d.ret >= 0 ==> (r == detach &&
        base.registry == if detach >= 0 then old(base.registry) - {event.key} else old(base.registry)))
    ensures base != null ==> base.status == old(base.status)
  {
    if base == null || event == null {
      return ReturnErr(EINVAL).ret;
    }
    if !base.Member(event) {
      return ReturnErr(ENOENT).ret;
    }
    var delIssued;
    r, delIssued := DelSignalEvent(table, event, g1, g2, ctl);
    if r < 0 {
      return;
    }
    r := base.Detach(event.key, detach);
  }

  /** The `i`-th result of `AMCFd_Read` on the pipe; past the given results the pipe is empty. */
  function ReadResult(results: seq<int>, i: nat): int
  {
    if i < |results| then results[i] else 0
  }

  /**
   * `epEventSignal_InvokeCallback`: EINVAL without a reactor, an event or an
   * epoll code; otherwise the pipe is drained (reads repeat while they
   * return data; `drained` counts them) and the user callback runs, with
   * the translated code, exactly when that code meets the event's mask.
   */
  method InvokeCallback(base: Base?, event: Event?, epollEvent: Mask, results: seq<int>)
    returns (r: int, call: Option<Call>, drained: nat)
    ensures base == null || event == null || epollEvent == 0 ==> r == ReturnErr(EINVAL).ret && call == None && drained == 0
    ensures base != null && event != null && epollEvent != 0 ==>
      r == 0 && drained >= 1 && ReadResult(results, drained - 1) <= 0 &&
      (forall i :: 0 <= i < drained - 1 ==> ReadResult(results, i) > 0) &&
      (call.Some? <==> AmcCodeFromSignalEpoll(epollEvent) & event.events != 0) &&
      (call.Some? ==> call.value == Call(event.fd, AmcCodeFromSignalEpoll(epollEvent)))
  {
    if base == null || event == null || epollEvent == 0 {
      return ReturnErr(EINVAL).ret, None, 0;
    }
    var callStat := ReadResult(results, 0);
    drained := 1;
    while callStat > 0
      invariant 1 <= drained <= |results| + 1
      invariant callStat == ReadResult(results, drained - 1)
      invariant forall i :: 0 <= i < drained - 1 ==> ReadResult(results, i) > 0
      decreases |results| + 1 - drained
    {
      callStat := ReadResult(results, drained);
      drained := drained + 1;
    }
    var userWhat := AmcCodeFromSignalEpoll(epollEvent);
    HaveIntrsetMeans(userWhat, event.events);
    call := if HaveIntrset(userWhat, event.events) then Some(UserCall(event, userWhat)) else None;
    r := 0;
  }
}
