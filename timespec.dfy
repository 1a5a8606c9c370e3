// The time arithmetic of utilTimeout.c: packing a `struct timespec` into
// the 64-bit key the deadline index is ordered by, comparing, subtracting,
// converting to and from milliseconds, and the deadline a timeout sets.
// `time_t` and `long` are taken as unbounded integers.
module Timespec {
  import opened RbCore

  const NSEC_PER_SEC: int := 1_000_000_000
  const NSEC_PER_MSEC: int := 1_000_000
  const MSEC_PER_SEC: int := 1000
  /** 2^32: the key keeps 32 bits of each field. */
  const WORD: int := 0x1_0000_0000
  const U64: int := 0x1_0000_0000_0000_0000

  datatype Timespec = Timespec(sec: int, nsec: int)

  /** The instant a timespec denotes, in nanoseconds. */
  function TotalNs(t: Timespec): int
  {
    t.sec * NSEC_PER_SEC + t.nsec
  }

  /** A timespec as `clock_gettime` produces it: the nanoseconds below one second. */
  predicate Normal(t: Timespec)
  {
    0 <= t.nsec < NSEC_PER_SEC
  }

  /** A normal timespec whose seconds fit the key's upper word. */
  predicate Keyable(t: Timespec)
  {
    Normal(t) && 0 <= t.sec < WORD
  }

  // ---------------------------------------------------------------- keys

  /**
   * `_rbkey_from_timespec`: the low 32 bits of `tv_sec` in the upper word and
   * the low 32 bits of `tv_nsec` in the lower word (two's complement, so
   * a negative field keeps its residue).
   */
  function KeyFromTimespec(t: Timespec): (k: Key)
    ensures k / WORD == t.sec % WORD && k % WORD == t.nsec % WORD
  {
    (t.sec % WORD) * WORD + t.nsec % WORD
  }

  /** `_timespec_from_rbkey`: the upper word as seconds, the lower as nanoseconds. */
  function TimespecFromKey(k: Key): (t: Timespec)
    ensures 0 <= t.sec < WORD && 0 <= t.nsec < WORD
    ensures t.sec * WORD + t.nsec == k
  {
    Timespec(k / WORD, k % WORD)
  }

  /** Unpacking a packed timespec gives it back when both fields fit 32 bits. */
  lemma UnpackPack(t: Timespec)
    requires 0 <= t.sec < WORD && 0 <= t.nsec < WORD
    ensures TimespecFromKey(KeyFromTimespec(t)) == t
  {
  }

  /** Packing an unpacked key gives the key back. */
  lemma PackUnpack(k: Key)
    ensures KeyFromTimespec(TimespecFromKey(k)) == k
  {
  }

  /** The key is zero exactly when both fields are multiples of 2^32 (for a keyable time: the zero time). */
  lemma KeyZero(t: Timespec)
    ensures KeyFromTimespec(t) == 0 <==> t.sec % WORD == 0 && t.nsec % WORD == 0
    ensures Keyable(t) ==> (KeyFromTimespec(t) == 0 <==> t == Timespec(0, 0))
  {
    var k := KeyFromTimespec(t);
    assert k == (t.sec % WORD) * WORD + t.nsec % WORD;
  }

  // ---------------------------------------------------------------- comparison

  /** `_timespec_comp`: -1, 0 or 1 as `left` is before, equal to or after `right`, seconds first. */
  function Comp(left: Timespec, right: Timespec): (r: int)
    ensures r == -1 || r == 0 || r == 1
    ensures r == 0 <==> left == right
    ensures r < 0 <==> left.sec < right.sec || (left.sec == right.sec && left.nsec < right.nsec)
  {
    if left.sec < right.sec then -1
    else if left.sec == right.sec then
      if left.nsec < right.nsec then -1
      else if left.nsec == right.nsec then 0
      else 1
    else 1
  }

  /** Swapping the arguments negates the comparison. */
  lemma CompAntisymmetric(a: Timespec, b: Timespec)
    ensures Comp(a, b) == -Comp(b, a)
  {
  }

  /** On normal times the comparison is the order of the instants. */
  lemma CompInstants(a: Timespec, b: Timespec)
    requires Normal(a) && Normal(b)
    ensures Comp(a, b) < 0 <==> TotalNs(a) < TotalNs(b)
    ensures Comp(a, b) == 0 <==> TotalNs(a) == TotalNs(b)
  {
    if a.sec < b.sec {
      assert TotalNs(a) < (a.sec + 1) * NSEC_PER_SEC <= TotalNs(b);
    } else if a.sec > b.sec {
      assert TotalNs(b) < (b.sec + 1) * NSEC_PER_SEC <= TotalNs(a);
    }
  }

  /** The deadline index is ordered by key: for keyable times that is the `_timespec_comp` order. */
  lemma KeyOrder(a: Timespec, b: Timespec)
    requires Keyable(a) && Keyable(b)
    ensures KeyFromTimespec(a) < KeyFromTimespec(b) <==> Comp(a, b) < 0
    ensures KeyFromTimespec(a) == KeyFromTimespec(b) <==> Comp(a, b) == 0
  {
    var ka, kb := KeyFromTimespec(a), KeyFromTimespec(b);
    assert ka == a.sec * WORD + a.nsec;
    assert kb == b.sec * WORD + b.nsec;
    if a.sec < b.sec {
      assert ka < (a.sec + 1) * WORD <= kb;
    } else if a.sec > b.sec {
      assert kb < (b.sec + 1) * WORD <= ka;
    }
  }

  // ---------------------------------------------------------------- subtraction

  /**
   * `_timespec_sub` as written: both branches borrow a second, so the
   * nanoseconds end up in 1e9 - b.nsec .. 2e9 - 1 whenever `a.nsec >= b.nsec`.
   */
  function Sub(a: Timespec, b: Timespec): (r: Timespec)
    ensures TotalNs(r) == TotalNs(a) - TotalNs(b)
  {
    Timespec(a.sec - 1 - b.sec, a.nsec + NSEC_PER_SEC - b.nsec)
  }

  /** The difference is exact, but not normal whenever no borrow was needed. */
  lemma SubAlwaysBorrows(a: Timespec, b: Timespec)
    requires Normal(a) && Normal(b)
    ensures 0 < Sub(a, b).nsec < 2 * NSEC_PER_SEC
    ensures Normal(Sub(a, b)) <==> a.nsec < b.nsec
  {
  }

  // ---------------------------------------------------------------- milliseconds

  /** C division of `long` values, which truncates toward zero. */
  function TDiv(a: int, b: int): (q: int)
    requires b > 0
    ensures a >= 0 ==> q == a / b
    ensures a < 0 ==> q == -((-a) / b)
  {
    if a >= 0 then a / b else -((-a) / b)
  }

  /** `_timespec_from_milisecs`: nothing for a non-positive count, else whole seconds and the remainder in nanoseconds. */
  function FromMillis(ms: int): (t: Timespec)
    ensures ms <= 0 ==> t == Timespec(0, 0)
    ensures ms > 0 ==> t.sec == ms / MSEC_PER_SEC && t.nsec == (ms % MSEC_PER_SEC) * NSEC_PER_MSEC
    ensures Normal(t) && t.sec >= 0
    ensures ms > 0 ==> TotalNs(t) == ms * NSEC_PER_MSEC
  {
    if ms <= 0 then Timespec(0, 0)
    else
      var sec := TDiv(ms, MSEC_PER_SEC);
      Timespec(sec, (ms - sec * MSEC_PER_SEC) * NSEC_PER_MSEC)
  }

  /** `_milisecs_from_timespec`: seconds times 1000 plus the truncated millisecond part of the nanoseconds. */
  function ToMillis(t: Timespec): (ms: int)
    ensures t.nsec >= 0 ==> ms == TotalNs(t) / NSEC_PER_MSEC
  {
    t.sec * MSEC_PER_SEC + TDiv(t.nsec, NSEC_PER_MSEC)
  }

  /** Converting a positive count to a timespec and back loses nothing. */
  lemma MillisRoundTrip(ms: int)
    requires ms > 0
    ensures ToMillis(FromMillis(ms)) == ms
  {
    assert TotalNs(FromMillis(ms)) == ms * NSEC_PER_MSEC;
  }

  /** The sleep bound: for `a` at or after `b`, the borrowed difference still converts to the floor of the elapsed milliseconds. */
  lemma SleepFloor(a: Timespec, b: Timespec)
    requires Normal(b) && 0 <= a.nsec && Comp(a, b) >= 0
    ensures ToMillis(Sub(a, b)) == (TotalNs(a) - TotalNs(b)) / NSEC_PER_MSEC
    ensures ToMillis(Sub(a, b)) >= 0
  {
    if a.sec > b.sec {
      assert TotalNs(a) - TotalNs(b) >= NSEC_PER_SEC + a.nsec - b.nsec;
    }
  }

  // ---------------------------------------------------------------- deadlines

  /** A `long` read back from a `uint64_t`. */
  function Signed64(x: int): (r: int)
    requires 0 <= x < U64
    ensures r % U64 == x
  {
    if x >= U64 / 2 then x - U64 else x
  }

  /**
   * The deadline `utilTimeout_SetObject` schedules: `now + interval`, with the
   * nanosecond sum taken as a `uint64_t` and a second carried when it
   * reaches 1e9.
   */
  function Deadline(now: Timespec, interval: Timespec): (target: Timespec)
    ensures Normal(now) && Normal(interval) ==> Normal(target) && TotalNs(target) == TotalNs(now) + TotalNs(interval)
  {
    var nsec := (interval.nsec + now.nsec) % U64;
    if nsec >= NSEC_PER_SEC then Timespec(now.sec + interval.sec + 1, Signed64((nsec - NSEC_PER_SEC) % U64))
    else Timespec(now.sec + interval.sec, Signed64(nsec))
  }

  /** A positive interval puts the deadline strictly after `now`. */
  lemma DeadlineAfter(now: Timespec, interval: Timespec)
    requires Normal(now) && Normal(interval) && TotalNs(interval) > 0
    ensures Comp(Deadline(now, interval), now) > 0
  {
    CompInstants(Deadline(now, interval), now);
  }
}
