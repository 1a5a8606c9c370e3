// The timeout chain of utilTimeout.c: two indexes kept side by side, from
// deadline key to the list of objects due then (`time_obj_chain`) and from
// object address to its deadline key (`obj_time_chain`).
//
// The C list behind a deadline is a head record stored by value in the map
// plus malloc'd `next` nodes; here it is the sequence of object addresses,
// head first.  Each internal operation is a specification function on the
// value `Chain` and a method of `TimeoutChain` that performs the same steps on
// its fields.  Stores that can fail, and `malloc`, take their results from a
// `Stores` record; a path that never returns or dereferences NULL ends in
// `Hang` or `Crash`.
module Timeout {
  import opened Wrappers
  import opened Errno
  import opened RbCore
  import opened OrderedMap
  import opened Timespec
  import opened EpCommon

  /** The objects due at one deadline, in list order; the head record always holds one. */
  type Bucket = b: seq<Key> | |b| > 0 witness [0]

  datatype Chain = Chain(initOK: bool, timeObj: map<Key, Bucket>, objTime: map<Key, Key>)

  /** How a call ends: with a return value, never (a loop that does not advance), or on a NULL dereference. */
  datatype Outcome = Returned(ret: int) | Hang | Crash

  datatype Step = Step(chain: Chain, out: Outcome)

  /** Results of the fallible calls an operation makes, in order: two map stores and one `malloc`. */
  datatype Stores = Stores(first: int, second: int, mallocOk: bool)

  /** The two indexes agree: each object is listed exactly once, in the bucket of its own deadline. */
  ghost predicate Coherent(c: Chain)
  {
    (forall o :: o in c.objTime ==> c.objTime[o] in c.timeObj && o in c.timeObj[c.objTime[o]])
    && (forall t, i :: t in c.timeObj && 0 <= i < |c.timeObj[t]| ==>
          c.timeObj[t][i] in c.objTime && c.objTime[c.timeObj[t][i]] == t)
    && (forall t, i, j :: t in c.timeObj && 0 <= i < j < |c.timeObj[t]| ==> c.timeObj[t][i] != c.timeObj[t][j])
  }

  /** An object is scheduled when some bucket lists it. */
  ghost predicate Scheduled(c: Chain, o: Key)
  {
    exists t :: t in c.timeObj && o in c.timeObj[t]
  }

  /** In a coherent chain the object index says exactly which objects are scheduled. */
  lemma ObjectIndexExact(c: Chain, o: Key)
    requires Coherent(c)
    ensures o in c.objTime <==> Scheduled(c, o)
  {
    if Scheduled(c, o) {
      var t :| t in c.timeObj && o in c.timeObj[t];
      var i :| 0 <= i < |c.timeObj[t]| && c.timeObj[t][i] == o;
    }
  }

  // ---------------------------------------------------------------- _add_new_object

  /**
   * `_add_new_object`.  A fresh deadline gets the one-element bucket and the
   * object its deadline; a failed second store deletes the bucket again.  At
   * a deadline that already has a bucket, the extended list is built on a
   * local copy and never stored, and the deadline is recorded under the
   * deadline's own key rather than the object's.
   */
  function AddNew(c: Chain, obj: Key, time: Timespec, s: Stores): (r: Step)
    ensures r.out.Returned? && r.chain.initOK == c.initOK
  {
    var timeKey := KeyFromTimespec(time);
    if timeKey !in c.timeObj then
      if s.first < 0 then Step(c, Returned(EpErr(s.first).ret))
      else if s.second < 0 then Step(c, Returned(EpErr(s.second).ret))
      else Step(c.(timeObj := c.timeObj[timeKey := [obj]], objTime := c.objTime[obj := timeKey]), Returned(0))
    else if !s.mallocOk then Step(c, Returned(EpErr(ENOMEM).ret))
    else if s.second < 0 then Step(c, Returned(EpErr(s.second).ret))
    else Step(c.(objTime := c.objTime[timeKey := timeKey]), Returned(0))
  }

  /** A new object at a fresh deadline is scheduled there, and the indexes stay coherent. */
  lemma AddNewFresh(c: Chain, obj: Key, time: Timespec, s: Stores)
    requires Coherent(c) && obj !in c.objTime && KeyFromTimespec(time) !in c.timeObj
    requires s.first >= 0 && s.second >= 0
    ensures AddNew(c, obj, time, s).out == Returned(0)
    ensures Coherent(AddNew(c, obj, time, s).chain)
    ensures AddNew(c, obj, time, s).chain.objTime == c.objTime[obj := KeyFromTimespec(time)]
    ensures AddNew(c, obj, time, s).chain.timeObj == c.timeObj[KeyFromTimespec(time) := [obj]]
  {
    var tk := KeyFromTimespec(time);
    var r := AddNew(c, obj, time, s).chain;
    forall o | o in r.objTime
      ensures r.objTime[o] in r.timeObj && o in r.timeObj[r.objTime[o]]
    {
      if o != obj {
        assert c.objTime[o] != tk;
      }
    }
    forall t, i | t in r.timeObj && 0 <= i < |r.timeObj[t]|
      ensures r.timeObj[t][i] in r.objTime && r.objTime[r.timeObj[t][i]] == t
    {
      if t != tk {
        assert c.timeObj[t][i] != obj;
      }
    }
  }

  /** Any failing store at a fresh deadline leaves both indexes as they were (the first store is rolled back). */
  lemma AddNewRollback(c: Chain, obj: Key, time: Timespec, s: Stores)
    requires KeyFromTimespec(time) !in c.timeObj && (s.first < 0 || s.second < 0)
    ensures AddNew(c, obj, time, s).chain == c
    ensures AddNew(c, obj, time, s).out.ret < 0
  {
  }

  /**
   * At a deadline that already has a bucket, the call returns 0 yet the
   * object is in no bucket and has no deadline of its own.
   */
  lemma AddNewSharedDeadlineLost(c: Chain, obj: Key, time: Timespec, s: Stores)
    requires Coherent(c) && obj !in c.objTime && KeyFromTimespec(time) in c.timeObj
    requires obj != KeyFromTimespec(time)
    requires s.mallocOk && s.second >= 0
    ensures AddNew(c, obj, time, s).out == Returned(0)
    ensures !Scheduled(AddNew(c, obj, time, s).chain, obj)
    ensures obj !in AddNew(c, obj, time, s).chain.objTime
  {
    ObjectIndexExact(c, obj);
  }

  // ---------------------------------------------------------------- _set_object

  /**
   * `_set_object`.  An unscheduled object goes to `_add_new_object`.  For a
   * scheduled one, only a bucket whose head is the object and which has more
   * entries changes: its tail is stored under the NEW deadline (the old bucket
   * stays, its `next` now freed).  The object's deadline is then overwritten,
   * and 0 is returned whatever the stores report.
   */
  function SetObj(c: Chain, obj: Key, time: Timespec, s: Stores): (r: Step)
    ensures r.out.Returned? && r.chain.initOK == c.initOK
  {
    var timeKey := KeyFromTimespec(time);
    if obj !in c.objTime then AddNew(c, obj, time, s)
    else
      var oldKey := c.objTime[obj];
      var timeObj :=
        if oldKey in c.timeObj && c.timeObj[oldKey][0] == obj && |c.timeObj[oldKey]| > 1
        then SetData(c.timeObj, timeKey, c.timeObj[oldKey][1..], s.first)
        else c.timeObj;
      Step(c.(timeObj := timeObj, objTime := SetData(c.objTime, obj, timeKey, s.second)), Returned(0))
  }

  /**
   * Rescheduling a lone object to a new deadline records the new deadline, but
   * no bucket is created for it and the old bucket still lists the object.
   */
  lemma SetObjMoveLost(c: Chain, obj: Key, time: Timespec, s: Stores)
    requires Coherent(c) && obj in c.objTime && c.timeObj[c.objTime[obj]] == [obj]
    requires KeyFromTimespec(time) !in c.timeObj && s.second >= 0
    ensures SetObj(c, obj, time, s).out == Returned(0)
    ensures SetObj(c, obj, time, s).chain.objTime[obj] == KeyFromTimespec(time)
    ensures KeyFromTimespec(time) !in SetObj(c, obj, time, s).chain.timeObj
    ensures obj in SetObj(c, obj, time, s).chain.timeObj[c.objTime[obj]]
    ensures !Coherent(SetObj(c, obj, time, s).chain)
  {
  }

  /**
   * Rescheduling the head of a longer bucket writes the rest of that bucket
   * under the new deadline.  The record under the old deadline is not
   * rewritten, so in this value model the old bucket keeps its old value
   * (in the C code its second node has been freed).
   */
  lemma SetObjHeadTail(c: Chain, obj: Key, time: Timespec, s: Stores)
    requires obj in c.objTime && c.objTime[obj] in c.timeObj
    requires c.timeObj[c.objTime[obj]][0] == obj && |c.timeObj[c.objTime[obj]]| > 1
    requires s.first >= 0 && KeyFromTimespec(time) != c.objTime[obj]
    ensures SetObj(c, obj, time, s).chain.timeObj[KeyFromTimespec(time)] == c.timeObj[c.objTime[obj]][1..]
    ensures SetObj(c, obj, time, s).chain.timeObj[c.objTime[obj]] == c.timeObj[c.objTime[obj]]
  {
  }

  // ---------------------------------------------------------------- _del_object

  /**
   * `_del_object`.  The object's deadline entry is removed first.  Removing a
   * bucket head deletes the bucket or promotes the next entry.  Otherwise the
   * list walk starts at the second node and compares only the third: it
   * crashes on a missing second or third node, unlinks the third node in
   * place when it is the object, and otherwise never advances.
   */
  function DelObj(c: Chain, obj: Key, s: Stores): (r: Step)
    ensures r.chain.initOK == c.initOK
  {
    if obj !in c.objTime then Step(c, Returned(EpErr(AMC_EP_ERR_OBJ_NOT_FOUND).ret))
    else
      var timeKey := c.objTime[obj];
      var c1 := c.(objTime := c.objTime - {obj});
      if timeKey !in c.timeObj then Step(c1, Returned(EpErr(AMC_EP_ERR_OBJ_NOT_FOUND).ret))
      else
        var b := c.timeObj[timeKey];
        if b[0] == obj then
          if |b| == 1 then Step(c1.(timeObj := c.timeObj - {timeKey}), Returned(0))
          else Step(c1.(timeObj := SetData(c.timeObj, timeKey, b[1..], s.first)), Returned(0))
        else if |b| < 3 then Step(c1, Crash)
        else if b[2] == obj then Step(c1.(timeObj := c.timeObj[timeKey := b[..2] + b[3..]]), Returned(0))
        else Step(c1, Hang)
  }

  /** Deleting an unscheduled object reports object-not-found and changes nothing. */
  lemma DelObjNotFound(c: Chain, obj: Key, s: Stores)
    requires obj !in c.objTime
    ensures DelObj(c, obj, s) == Step(c, Returned(-AMC_EP_ERR_OBJ_NOT_FOUND))
  {
  }

  /** Removing a bucket head unschedules exactly that object and keeps the indexes coherent. */
  lemma DelObjHead(c: Chain, obj: Key, s: Stores)
    requires Coherent(c) && obj in c.objTime && c.timeObj[c.objTime[obj]][0] == obj
    requires s.first >= 0
    ensures DelObj(c, obj, s).out == Returned(0)
    ensures Coherent(DelObj(c, obj, s).chain)
    ensures DelObj(c, obj, s).chain.objTime == c.objTime - {obj}
    ensures !Scheduled(DelObj(c, obj, s).chain, obj)
  {
    var tk := c.objTime[obj];
    var b := c.timeObj[tk];
    var r := DelObj(c, obj, s).chain;
    assert forall i :: 0 < i < |b| ==> b[i] != obj by {
      forall i | 0 < i < |b| ensures b[i] != obj { assert b[0] != b[i]; }
    }
    if |b| == 1 {
      assert r.timeObj == c.timeObj - {tk};
    } else {
      assert r.timeObj == c.timeObj[tk := b[1..]];
      forall o | o in r.objTime
        ensures r.objTime[o] in r.timeObj && o in r.timeObj[r.objTime[o]]
      {
        var i :| 0 <= i < |c.timeObj[c.objTime[o]]| && c.timeObj[c.objTime[o]][i] == o;
        if c.objTime[o] == tk {
          assert i > 0 && b[1..][i - 1] == o;
        }
      }
      forall t, i, j | t in r.timeObj && 0 <= i < j < |r.timeObj[t]|
        ensures r.timeObj[t][i] != r.timeObj[t][j]
      {
        if t == tk {
          assert r.timeObj[t][i] == b[i + 1] && r.timeObj[t][j] == b[j + 1];
        }
      }
      forall t, i | t in r.timeObj && 0 <= i < |r.timeObj[t]|
        ensures r.timeObj[t][i] in r.objTime && r.objTime[r.timeObj[t][i]] == t
      {
        if t == tk {
          assert r.timeObj[t][i] == b[i + 1];
        }
      }
    }
    ObjectIndexExact(r, obj);
  }

  /**
   * Outside the head, deletion completes only for the third entry of the
   * list: for any other scheduled object it crashes or never returns.
   */
  lemma DelObjInterior(c: Chain, obj: Key, s: Stores)
    requires Coherent(c) && obj in c.objTime && c.timeObj[c.objTime[obj]][0] != obj
    ensures DelObj(c, obj, s).out.Returned? <==> |c.timeObj[c.objTime[obj]]| >= 3 && c.timeObj[c.objTime[obj]][2] == obj
    ensures DelObj(c, obj, s).out.Returned? ==> DelObj(c, obj, s).out.ret == 0
  {
  }

  // ---------------------------------------------------------------- the chain object

  class TimeoutChain {
    var initOK: bool
    var timeObj: map<Key, Bucket>
    var objTime: map<Key, Key>

    /** A zero-filled `struct UtilTimeoutChain`. */
    constructor ()
      ensures !initOK && timeObj == map[] && objTime == map[]
    {
      initOK := false;
      timeObj := map[];
      objTime := map[];
    }

    function State(): Chain
      reads this
    {
      Chain(initOK, timeObj, objTime)
    }

    method AddNewObject(obj: Key, time: Timespec, s: Stores) returns (out: Outcome)
      modifies this
      ensures Step(State(), out) == AddNew(old(State()), obj, time, s)
    {
      var timeKey := KeyFromTimespec(time);
      if timeKey !in timeObj {
        if s.first < 0 {
          return Returned(EpErr(s.first).ret);
        }
        var before := timeObj;
        timeObj := timeObj[timeKey := [obj]];
        if s.second < 0 {
          timeObj := timeObj - {timeKey};
          assert timeObj == before;
          return Returned(EpErr(s.second).ret);
        }
        objTime := objTime[obj := timeKey];
        return Returned(0);
      }
      if !s.mallocOk {
        return Returned(EpErr(ENOMEM).ret);
      }
      if s.second < 0 {
        return Returned(EpErr(s.second).ret);
      }
      objTime := objTime[timeKey := timeKey];
      return Returned(0);
    }

    method SetObjectTime(obj: Key, time: Timespec, s: Stores) returns (out: Outcome)
      modifies this
      ensures Step(State(), out) == SetObj(old(State()), obj, time, s)
    {
      if obj !in objTime {
        out := AddNewObject(obj, time, s);
        return;
      }
      var timeKey := KeyFromTimespec(time);
      var oldKey := objTime[obj];
      if oldKey in timeObj {
        var b := timeObj[oldKey];
        if b[0] == obj && |b| > 1 {
          timeObj := SetData(timeObj, timeKey, b[1..], s.first);
        }
      }
      objTime := SetData(objTime, obj, timeKey, s.second);
      return Returned(0);
    }

    method DelObjectTime(obj: Key, s: Stores) returns (out: Outcome)
      modifies this
      ensures Step(State(), out) == DelObj(old(State()), obj, s)
    {
      if obj !in objTime {
        return Returned(EpErr(AMC_EP_ERR_OBJ_NOT_FOUND).ret);
      }
      var timeKey := objTime[obj];
      objTime := objTime - {obj};
      if timeKey !in timeObj {
        return Returned(EpErr(AMC_EP_ERR_OBJ_NOT_FOUND).ret);
      }
      var b := timeObj[timeKey];
      if b[0] == obj {
        if |b| == 1 {
          timeObj := timeObj - {timeKey};
        } else {
          timeObj := SetData(timeObj, timeKey, b[1..], s.first);
        }
        return Returned(0);
      }
      if |b| < 3 {
        return Crash;
      }
      if b[2] == obj {
        timeObj := timeObj[timeKey := b[..2] + b[3..]];
        return Returned(0);
      }
      return Hang;
    }
  }

  // ---------------------------------------------------------------- public functions

  /**
   * `utilTimeout_Init`.  A chain already initialised is refused (with the
   * not-initialised code, as written).  `initFirst` and `initSecond` are the
   * results of initialising the two maps; a map that initialises is empty.
   * On success the second map's result is returned as it is, so a positive
   * result passes through.
   */
  method Init(chain: TimeoutChain?, initFirst: int, initSecond: int) returns (ret: int)
    modifies chain
    ensures chain == null ==> ret == -EINVAL
    ensures chain != null && old(chain.initOK) ==> ret == -AMC_EP_ERR_BASE_TIMEOUT_NOT_INIT && chain.State() == old(chain.State())
    ensures chain != null && !old(chain.initOK) ==>
      (ret < 0 <==> initFirst < 0 || initSecond < 0) &&
      (initFirst < 0 ==> ret == EpErr(initFirst).ret && chain.State() == old(chain.State())) &&
      (initFirst >= 0 && initSecond < 0 ==> ret == EpErr(initSecond).ret && !chain.initOK && chain.timeObj == map[]) &&
      (initFirst >= 0 && initSecond >= 0 ==> ret == initSecond && chain.State() == Chain(true, map[], map[]))
  {
    if chain == null {
      return EpErr(EINVAL).ret;
    }
    if chain.initOK {
      return EpErr(AMC_EP_ERR_BASE_TIMEOUT_NOT_INIT).ret;
    }
    if initFirst < 0 {
      return EpErr(initFirst).ret;
    }
    chain.timeObj := map[];
    if initSecond < 0 {
      return EpErr(initSecond).ret;
    }
    chain.objTime := map[];
    chain.initOK := true;
    return initSecond;
  }

  /** `utilTimeout_Clean`: clears the initialised flag; the map cleaners are stubs, so the entries stay. */
  method Clean(chain: TimeoutChain?) returns (ret: int)
    modifies chain
    ensures chain == null ==> ret == -EINVAL
    ensures chain != null ==> ret == 0 && chain.State() == old(chain.State()).(initOK := false)
  {
    if chain == null {
      return EpErr(EINVAL).ret;
    }
    if !chain.initOK {
      return 0;
    }
    chain.initOK := false;
    return 0;
  }

  /**
   * `utilTimeout_SetObject`: a zero interval key hands over to
   * `utilTimeout_DelObject`, which refuses a NULL event; otherwise the object
   * is scheduled at `now + interval`.
   */
  method SetObject(chain: TimeoutChain?, event: Key, interval: Timespec, now: Timespec, s: Stores) returns (out: Outcome)
    modifies chain
    ensures chain == null ==> out == Returned(-EINVAL)
    ensures chain != null && !old(chain.initOK) ==> out == Returned(-AMC_EP_ERR_BASE_TIMEOUT_NOT_INIT) && chain.State() == old(chain.State())
    ensures chain != null && old(chain.initOK) && KeyFromTimespec(interval) == 0 && event == 0 ==>
      out == Returned(-EINVAL) && chain.State() == old(chain.State())
    ensures chain != null && old(chain.initOK) && KeyFromTimespec(interval) == 0 && event != 0 ==>
      Step(chain.State(), out) == DelObj(old(chain.State()), event, s)
    ensures chain != null && old(chain.initOK) && KeyFromTimespec(interval) != 0 ==>
      Step(chain.State(), out) == SetObj(old(chain.State()), event, Deadline(now, interval), s)
  {
    if chain == null {
      return Returned(EpErr(EINVAL).ret);
    }
    if !chain.initOK {
      return Returned(EpErr(AMC_EP_ERR_BASE_TIMEOUT_NOT_INIT).ret);
    }
    if KeyFromTimespec(interval) == 0 {
      out := DelObject(chain, event, s);
      return;
    }
    out := chain.SetObjectTime(event, Deadline(now, interval), s);
  }

  /** `utilTimeout_ObjectExists`: whether the object index holds the (non-NULL) object; the initialised flag is not consulted. */
  method ObjectExists(chain: TimeoutChain?, event: Key) returns (b: bool)
    ensures b <==> chain != null && event != 0 && event in chain.objTime
  {
    if chain == null || event == 0 {
      return false;
    }
    return event in chain.objTime;
  }

  /** `utilTimeout_DelObject`: NULL arguments and an uninitialised chain are refused before `_del_object` runs. */
  method DelObject(chain: TimeoutChain?, event: Key, s: Stores) returns (out: Outcome)
    modifies chain
    ensures chain == null ==> out == Returned(-EINVAL)
    ensures chain != null && event == 0 ==> out == Returned(-EINVAL) && chain.State() == old(chain.State())
    ensures chain != null && event != 0 && !old(chain.initOK) ==>
      out == Returned(-AMC_EP_ERR_BASE_TIMEOUT_NOT_INIT) && chain.State() == old(chain.State())
    ensures chain != null && event != 0 && old(chain.initOK) ==> Step(chain.State(), out) == DelObj(old(chain.State()), event, s)
  {
    if chain == null || event == 0 {
      return Returned(EpErr(EINVAL).ret);
    }
    if !chain.initOK {
      return Returned(EpErr(AMC_EP_ERR_BASE_TIMEOUT_NOT_INIT).ret);
    }
    out := chain.DelObjectTime(event, s);
  }

  /**
   * `utilTimeout_GetSmallestTime`: the earliest deadline and the head of its
   * bucket; an empty chain reports the map's not-found error.
   */
  method GetSmallestTime(chain: TimeoutChain?) returns (ret: int, time: Timespec, event: Key)
    ensures chain == null ==> ret == -EINVAL
    ensures chain != null && !chain.initOK ==> ret == -AMC_EP_ERR_BASE_TIMEOUT_NOT_INIT
    ensures chain != null && chain.initOK && chain.timeObj == map[] ==> ret == -RB_ERR_NO_FOUND
    ensures ret == 0 <==> chain != null && chain.initOK && chain.timeObj != map[]
    ensures ret == 0 ==> 0 <= time.sec < WORD && 0 <= time.nsec < WORD
    ensures ret == 0 ==> KeyFromTimespec(time) in chain.timeObj && event == chain.timeObj[KeyFromTimespec(time)][0]
    ensures ret == 0 ==> forall k :: k in chain.timeObj ==> KeyFromTimespec(time) <= k
  {
    time, event := Timespec(0, 0), 0;
    if chain == null {
      return EpErr(EINVAL).ret, time, event;
    }
    if !chain.initOK {
      return EpErr(AMC_EP_ERR_BASE_TIMEOUT_NOT_INIT).ret, time, event;
    }
    var found := FindMinimum(chain.timeObj);
    if found.None? {
      return EpErr(-RB_ERR_NO_FOUND).ret, time, event;
    }
    var (key, bucket) := found.value;
    PackUnpack(key);
    return 0, TimespecFromKey(key), bucket[0];
  }

  /**
   * `utilTimeout_MinimumSleepMilisecs`: -1 when nothing is scheduled, 0 when
   * the earliest deadline has passed, else the whole milliseconds until it.
   */
  method MinimumSleepMilisecs(chain: TimeoutChain?, now: Timespec) returns (ms: int)
    requires Normal(now)
    ensures chain == null ==> ms == -EINVAL
    ensures chain != null && (!chain.initOK || chain.timeObj == map[]) ==> ms == -1
    ensures chain != null && chain.initOK && chain.timeObj != map[] ==>
      var next := TimespecFromKey(FindMinimum(chain.timeObj).value.0);
      ms >= 0 &&
      (Comp(next, now) < 0 ==> ms == 0) &&
      (Comp(next, now) >= 0 ==> ms == (TotalNs(next) - TotalNs(now)) / NSEC_PER_MSEC)
  {
    if chain == null {
      return EpErr(EINVAL).ret;
    }
    var callStat, next, event := GetSmallestTime(chain);
    if callStat != 0 {
      return -1;
    }
    var least := FindMinimum(chain.timeObj).value.0;
    assert KeyFromTimespec(next) == least by {
      assert KeyFromTimespec(next) <= least && least <= KeyFromTimespec(next);
    }
    UnpackPack(next);
    if Comp(next, now) < 0 {
      return 0;
    }
    SleepFloor(next, now);
    return ToMillis(Sub(next, now));
  }

  /** `utilTimeout_CompareTime`: `_timespec_comp`, or 0 when either argument is NULL. */
  function CompareTime(left: Option<Timespec>, right: Option<Timespec>): (r: int)
    ensures left.None? || right.None? ==> r == 0
    ensures left.Some? && right.Some? ==> (r < 0 <==> Comp(left.value, right.value) < 0) && (r == 0 <==> left == right)
  {
    if left.Some? && right.Some? then Comp(left.value, right.value) else 0
  }
}
