// include/epCommon.h and src/epCommon.c: the mask and size constants every
// event variant shares, the bit-test macros, `ep_err`, the `_RETURN_ERR`
// macro the variants repeat, and the registry keys they format with
// `snprintf`.
module EpCommon {
  import opened Wrappers
  import opened Errno
  import opened RbError

  /** `events_t` / `int` masks, as 32-bit words. */
  type Mask = bv32

  /** A C `int`. */
  type CInt = x: int | -0x8000_0000 <= x < 0x8000_0000

  // AMC event codes (include/AMCEpoll.h); SIGNAL is not in the header and takes bit 10.
  const EP_MODE_PERSIST: Mask := 0x001
  const EP_MODE_EDGE: Mask := 0x002
  const EP_EVENT_READ: Mask := 0x020
  const EP_EVENT_WRITE: Mask := 0x040
  const EP_EVENT_ERROR: Mask := 0x080
  const EP_EVENT_FREE: Mask := 0x100
  const EP_EVENT_TIMEOUT: Mask := 0x200
  const EP_EVENT_SIGNAL: Mask := 0x400

  // Linux epoll codes (sys/epoll.h).
  const EPOLLIN: Mask := 0x001
  const EPOLLPRI: Mask := 0x002
  const EPOLLOUT: Mask := 0x004
  const EPOLLERR: Mask := 0x008
  const EPOLLHUP: Mask := 0x010
  const EPOLLONESHOT: Mask := 0x4000_0000
  const EPOLLET: Mask := 0x8000_0000

  const EVENT_KEY_LEN_MAX: nat := 32
  const SIGNAL_NUM_MAX: nat := 64
  const INTERNAL_DATA_LEN: nat := 64

  // The library's own error range, above every system errno.
  const AMC_EP_ERR_UNKNOWN: int := 20000
  const AMC_EP_ERR_OBJ_EXISTS: int := 20001
  const AMC_EP_ERR_OBJ_NOT_FOUND: int := 20002
  const AMC_EP_ERR_BASE_TIMEOUT_NOT_INIT: int := 20003

  // ---------------------------------------------------------------- bit tests

  /** `BITS_ANY_SET(val, bits)`. */
  predicate AnySet(v: Mask, bits: Mask)
  {
    v & bits != 0
  }

  /** `BITS_ALL_SET(val, bits)`. */
  predicate AllSet(v: Mask, bits: Mask)
  {
    v & bits == bits
  }

  /** `BITS_HAVE_INTRSET(bitA, bitB)`, written as the header writes it. */
  predicate HaveIntrset(a: Mask, b: Mask)
  {
    a != a & !b
  }

  /** The two masks share a bit exactly when their conjunction is non-zero. */
  lemma HaveIntrsetMeans(a: Mask, b: Mask)
    ensures HaveIntrset(a, b) <==> a & b != 0
  {
  }

  lemma HaveIntrsetSymmetric(a: Mask, b: Mask)
    ensures HaveIntrset(a, b) <==> HaveIntrset(b, a)
    ensures !HaveIntrset(a, 0) && !HaveIntrset(0, b)
  {
    HaveIntrsetMeans(a, b);
    HaveIntrsetMeans(b, a);
    HaveIntrsetMeans(a, 0);
    HaveIntrsetMeans(0, b);
    assert a & b == b & a;
  }

  lemma AllSetAnySet(v: Mask, bits: Mask)
    ensures bits != 0 && AllSet(v, bits) ==> AnySet(v, bits)
    ensures AllSet(v, 0) && !AnySet(v, 0)
  {
  }

  // ---------------------------------------------------------------- error returns

  /**
   * `ep_err`: zero stays zero and clears errno; any other code comes back as
   * its negated magnitude, with errno set to the magnitude, or to EPERM for
   * codes of the library's own range.
   */
  function EpErr(err: int): (r: Report)
    ensures err == 0 ==> r == Report(0, Some(0))
    ensures err != 0 ==> r.ret == -Abs(err) && r.ret < 0
    ensures err != 0 ==> r.errno == Some(if Abs(err) >= AMC_EP_ERR_UNKNOWN then EPERM else Abs(err))
  {
    if err == 0 then Report(0, Some(0))
    else if Abs(err) >= AMC_EP_ERR_UNKNOWN then Report(-Abs(err), Some(EPERM))
    else Report(-Abs(err), Some(Abs(err)))
  }

  /** The sign of the argument does not matter, and normalising twice changes nothing. */
  lemma EpErrNormal(err: int)
    ensures EpErr(-err) == EpErr(err)
    ensures EpErr(EpErr(err).ret).ret == EpErr(err).ret
    ensures EpErr(err).ret == 0 <==> err == 0
  {
  }

  /**
   * `_RETURN_ERR(err)` (duplicated in the variant files and AMCEpoll.c): a
   * positive code is returned negated and stored in errno, a negative code is
   * returned as it is with its magnitude in errno, and zero becomes -1 with
   * errno untouched.
   */
  function ReturnErr(err: int): (r: Report)
    ensures r.ret < 0
    ensures err != 0 ==> r == Report(-Abs(err), Some(Abs(err)))
    ensures err == 0 ==> r == Report(-1, None)
  {
    if err > 0 then Report(-err, Some(err))
    else if err < 0 then Report(err, Some(-err))
    else Report(-1, None)
  }

  /** Away from the library range and zero, `_RETURN_ERR` and `ep_err` agree. */
  lemma ReturnErrAgrees(err: int)
    requires err != 0 && Abs(err) < AMC_EP_ERR_UNKNOWN
    ensures ReturnErr(err) == EpErr(err)
  {
  }

  // ---------------------------------------------------------------- registry keys

  function DigitChar(d: nat): (c: char)
    requires d < 10
    ensures '0' <= c <= '9'
  {
    "0123456789"[d]
  }

  /** `%d` / `%ld` of a non-negative value. */
  function Digits(n: nat): (s: string)
    ensures |s| >= 1 && forall i :: 0 <= i < |s| ==> '0' <= s[i] <= '9'
  {
    if n < 10 then [DigitChar(n)] else Digits(n / 10) + [DigitChar(n % 10)]
  }

  /** `%d` / `%ld` of any value. */
  function Decimal(n: int): string
  {
    if n < 0 then "-" + Digits(-n) else Digits(n)
  }

  /** `snprintf(str, EVENT_KEY_LEN_MAX - 1, ...)`: at most 30 characters survive. */
  function KeyText(s: string): (r: string)
    ensures |r| <= EVENT_KEY_LEN_MAX - 2 && r <= s
  {
    if |s| <= EVENT_KEY_LEN_MAX - 2 then s else s[..EVENT_KEY_LEN_MAX - 2]
  }

  /** `_snprintf_fd_key`. */
  function FdKey(fd: CInt): string
  {
    KeyText("fd_" + Decimal(fd))
  }

  /** `_snprintf_signal_key`. */
  function SignalKey(sig: CInt): string
  {
    KeyText("sig_" + Decimal(sig))
  }

  /** `_snprintf_timeout_key`: the event's address printed with `%ld`, so through a signed reinterpretation. */
  function TimeoutKey(addr: nat): string
    requires addr < 0x1_0000_0000_0000_0000
  {
    KeyText("tm_" + Decimal(SignedAddr(addr)))
  }

  lemma {:induction false} DigitsLength(n: nat, bound: nat, width: nat)
    requires n < bound && bound == Pow10(width) && width >= 1
    ensures |Digits(n)| <= width
    decreases width
  {
    if n >= 10 {
      assert n / 10 < Pow10(width - 1);
      DigitsLength(n / 10, Pow10(width - 1), width - 1);
    }
  }

  function Pow10(w: nat): (r: nat)
    ensures r >= 1
  {
    if w == 0 then 1 else 10 * Pow10(w - 1)
  }

  lemma {:induction false} Pow10Sum(a: nat, b: nat)
    ensures Pow10(a + b) == Pow10(a) * Pow10(b)
    decreases a
  {
    if a > 0 {
      Pow10Sum(a - 1, b);
    }
  }

  lemma {:induction false} DigitsInjective(a: nat, b: nat)
    requires Digits(a) == Digits(b)
    ensures a == b
    decreases a
  {
    var da, db := Digits(a), Digits(b);
    assert a < 10 <==> |da| == 1;
    assert b < 10 <==> |db| == 1;
    if a < 10 {
      assert da[0] == DigitChar(a) && db[0] == DigitChar(b);
    } else {
      assert da[..|da| - 1] == Digits(a / 10) && db[..|db| - 1] == Digits(b / 10);
      assert da[|da| - 1] == DigitChar(a % 10) && db[|db| - 1] == DigitChar(b % 10);
      DigitsInjective(a / 10, b / 10);
    }
  }

  lemma DecimalInjective(a: int, b: int)
    requires Decimal(a) == Decimal(b)
    ensures a == b
  {
    var d := Decimal(a);
    assert d[0] == '-' <==> a < 0;
    assert d[0] == '-' <==> b < 0;
    if a < 0 {
      assert Digits(-a) == d[1..] == Digits(-b);
      DigitsInjective(-a, -b);
    } else {
      DigitsInjective(a, b);
    }
  }

  lemma DecimalLength(n: int, width: nat)
    requires width >= 1 && -(Pow10(width) as int) < n < Pow10(width)
    ensures |Decimal(n)| <= width + 1
  {
    if n < 0 { DigitsLength(-n, Pow10(width), width); } else { DigitsLength(n, Pow10(width), width); }
  }

  lemma PrefixedInjective(p: string, a: int, b: int)
    requires p + Decimal(a) == p + Decimal(b)
    ensures a == b
  {
    assert Decimal(a) == (p + Decimal(a))[|p|..] == (p + Decimal(b))[|p|..] == Decimal(b);
    DecimalInjective(a, b);
  }

  /** A C `int` prints in at most 11 characters, so `fd_` and `sig_` keys are never cut. */
  lemma CIntKeysWhole(x: CInt)
    ensures FdKey(x) == "fd_" + Decimal(x)
    ensures SignalKey(x) == "sig_" + Decimal(x)
  {
    assert Pow10(10) == 10000000000;
    DecimalLength(x, 10);
  }

  /** Keys name their event: different descriptors or signals never share a key. */
  lemma KeysIdentify(a: CInt, b: CInt)
    ensures FdKey(a) == FdKey(b) ==> a == b
    ensures SignalKey(a) == SignalKey(b) ==> a == b
  {
    CIntKeysWhole(a);
    CIntKeysWhole(b);
    if FdKey(a) == FdKey(b) { PrefixedInjective("fd_", a, b); }
    if SignalKey(a) == SignalKey(b) { PrefixedInjective("sig_", a, b); }
  }

  /** `%ld` of a 64-bit address reinterpreted as signed. */
  function SignedAddr(addr: nat): (v: int)
    requires addr < 0x1_0000_0000_0000_0000
    ensures -0x8000_0000_0000_0000 <= v < 0x8000_0000_0000_0000
    ensures v % 0x1_0000_0000_0000_0000 == addr
  {
    if addr >= 0x8000_0000_0000_0000 then addr - 0x1_0000_0000_0000_0000 else addr
  }

  /** An address prints in at most 20 characters, so a `tm_` key is never cut and names one event. */
  lemma TimeoutKeysIdentify(a: nat, b: nat)
    requires a < 0x1_0000_0000_0000_0000 && b < 0x1_0000_0000_0000_0000
    ensures TimeoutKey(a) == "tm_" + Decimal(SignedAddr(a))
    ensures TimeoutKey(a) == TimeoutKey(b) ==> a == b
  {
    Pow10Sum(10, 9);
    assert Pow10(10) == 10000000000 && Pow10(9) == 1000000000;
    DecimalLength(SignedAddr(a), 19);
    DecimalLength(SignedAddr(b), 19);
    if TimeoutKey(a) == TimeoutKey(b) {
      PrefixedInjective("tm_", SignedAddr(a), SignedAddr(b));
    }
  }

  /** An fd key and a signal key never collide: they differ at their first character. */
  lemma KeyKindsDiffer(a: CInt, b: CInt, addr: nat)
    requires addr < 0x1_0000_0000_0000_0000
    ensures FdKey(a) != SignalKey(b) && FdKey(a) != TimeoutKey(addr) && SignalKey(b) != TimeoutKey(addr)
  {
    CIntKeysWhole(a);
    CIntKeysWhole(b);
    var t := "tm_" + Decimal(SignedAddr(addr));
    assert FdKey(a)[0] == 'f' && SignalKey(b)[0] == 's';
    assert |KeyText(t)| >= 1 && KeyText(t)[0] == t[0] == 't';
  }
}
