// `_rb_err` (utilRbTree.c): the tree's error normalisation, returning the
// value a public function returns together with what it leaves in errno.
module RbError {
  import opened Wrappers
  import opened Errno

  const RB_ERR_UNKNOWN: int := 10000
  const RB_ERR_ALREADY_INIT: int := 10001
  const RB_ERR_NOT_INIT: int := 10002
  const RB_ERR_NOT_EMPTY: int := 10003
  const RB_ERR_NOT_CHECKING: int := 10004
  const RB_ERR_RECURSIVE_CHECK: int := 10005
  const RB_ERR_INSERT_CONFLICT: int := 10006
  const RB_ERR_BOUNDARY: int := 10007

  /** A return value and the new errno; `None` leaves errno as it was. */
  datatype Report = Report(ret: int, errno: Option<int>)

  function Abs(x: int): (r: int)
    ensures r >= 0 && (r == x || r == -x)
  {
    if x < 0 then -x else x
  }

  /**
   * `_rb_err` as written: for a system error code 2 .. RB_ERR_UNKNOWN-1 it
   * returns the code positive and stores its negation in errno.
   */
  function RbErrAsWritten(err: int): (r: Report)
    ensures err == 0 ==> r == Report(0, Some(0))
    ensures 2 <= Abs(err) < RB_ERR_UNKNOWN ==> r.ret > 0 && r.errno == Some(-r.ret)
  {
    if err == 0 then Report(0, Some(0))
    else if Abs(err) == 1 then Report(-RB_ERR_UNKNOWN, None)
    else if Abs(err) >= RB_ERR_UNKNOWN then Report(-Abs(err), Some(EPERM))
    else Report(Abs(err), Some(-Abs(err)))
  }

  /** `utilRbTree_Init(NULL)` reports EINVAL as the positive value 22 and leaves errno at -22. */
  lemma RbErrAsWrittenEinval()
    ensures RbErrAsWritten(EINVAL) == Report(22, Some(-22))
    ensures RbErrAsWritten(-EINVAL).ret > 0
  {
  }

  /**
   * A caller that tests `ret < 0`, as `utilRbTree_Destory` does with the
   * result of `utilRbTree_Clean` (which is `_rb_err(ENOSYS)`), takes the
   * failure for success.
   */
  lemma RbErrAsWrittenHidesFailure()
    ensures !(RbErrAsWritten(ENOSYS).ret < 0) && RbErrAsWritten(ENOSYS).ret != 0
  {
  }

  /** `_rb_err` as evidently intended: every non-zero code becomes a negative return. */
  function RbErr(err: int): (r: Report)
    ensures err == 0 <==> r.ret == 0
    ensures err != 0 ==> r.ret < 0
    ensures 2 <= Abs(err) < RB_ERR_UNKNOWN ==> r == Report(-Abs(err), Some(Abs(err)))
    ensures Abs(err) >= RB_ERR_UNKNOWN ==> r == Report(-Abs(err), Some(EPERM))
  {
    if err == 0 then Report(0, Some(0))
    else if Abs(err) == 1 then Report(-RB_ERR_UNKNOWN, None)
    else if Abs(err) >= RB_ERR_UNKNOWN then Report(-Abs(err), Some(EPERM))
    else Report(-Abs(err), Some(Abs(err)))
  }

  /** The sign of the argument does not matter, and normalising twice changes nothing. */
  lemma RbErrNormal(err: int)
    ensures RbErr(-err) == RbErr(err)
    ensures RbErr(RbErr(err).ret).ret == RbErr(err).ret
  {
  }

  /** The as-written and corrected versions differ exactly on plain system error codes. */
  lemma RbErrDiffers(err: int)
    ensures RbErrAsWritten(err) != RbErr(err) <==> 2 <= Abs(err) < RB_ERR_UNKNOWN
  {
  }
}
