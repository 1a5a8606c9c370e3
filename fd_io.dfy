// `AMCFd_Read` and `AMCFd_Write` (src/AMCEpoll.c): loops that call `read`
// or `write` until the requested count is reached or the call says stop.
// The system calls' results are given as a sequence, one per call; past its
// end a call reports EAGAIN, and a call never moves more bytes than it
// was asked for.
module FdIo {
  import opened Errno
  import opened EpCommon

  /** What one `read` or `write` reports: a byte count (0 is end of file for `read`), or failure with errno. */
  datatype Io = Bytes(n: nat) | IoFailed(errno: int)

  /** The `i`-th call's result. */
  function IoAt(results: seq<Io>, i: nat): Io
  {
    if i < |results| then results[i] else IoFailed(EAGAIN)
  }

  /** A call asked for `want` bytes moves at most that many. */
  function Moved(n: nat, want: nat): (m: nat)
    ensures m <= want && m <= n && (m == n || m == want)
  {
    if n < want then n else want
  }

  /**
   * The read loop from call `i` on, with `ret` bytes already read: end of
   * file and EAGAIN stop with the count so far, EINTR retries, any other
   * error gives -1, and reaching `nbyte` stops.
   */
  function ReadFrom(results: seq<Io>, i: nat, ret: nat, nbyte: nat): (r: int)
    requires ret < nbyte
    ensures r == -1 || ret <= r <= nbyte
    decreases |results| - i
  {
    if i >= |results| then ret
    else match results[i]
      case Bytes(n) =>
        if n == 0 then ret
        else
          var got := ret + Moved(n, nbyte - ret);
          if got >= nbyte then got else ReadFrom(results, i + 1, got, nbyte)
      case IoFailed(e) =>
        if e == EINTR then ReadFrom(results, i + 1, ret, nbyte)
        else if e == EAGAIN then ret
        else -1
  }

  /** The write loop from call `i` on: as the read loop, except that a late error keeps the count already written. */
  function WriteFrom(results: seq<Io>, i: nat, ret: nat, nbyte: nat): (r: int)
    requires ret < nbyte
    ensures r == -1 || ret <= r <= nbyte
    ensures r == -1 ==> ret == 0
    decreases |results| - i
  {
    if i >= |results| then ret
    else match results[i]
      case Bytes(n) =>
        var put := ret + Moved(n, nbyte - ret);
        if put >= nbyte then put else WriteFrom(results, i + 1, put, nbyte)
      case IoFailed(e) =>
        if e == EINTR then WriteFrom(results, i + 1, ret, nbyte)
        else if e == EAGAIN then ret
        else if ret > 0 then ret else -1
  }

  /**
   * The read loop, unlike the write loop, drops the bytes already read on a
   * late error: a partial transfer followed by a hard error is -1 for `read`
   * and the partial count for `write`.
   */
  lemma ReadDropsProgress(n: nat, e: int, nbyte: nat)
    requires 0 < n < nbyte && e != EINTR && e != EAGAIN
    ensures ReadFrom([Bytes(n), IoFailed(e)], 0, 0, nbyte) == -1
    ensures WriteFrom([Bytes(n), IoFailed(e)], 0, 0, nbyte) == n
  {
  }

  /** `AMCFd_Read`: EBADF for a negative descriptor, EINVAL for a NULL buffer, 0 for an empty request, else the read loop. */
  method Read(fd: CInt, bufferNull: bool, nbyte: nat, results: seq<Io>) returns (r: int)
    ensures fd < 0 ==> r == ReturnErr(EBADF).ret
    ensures fd >= 0 && bufferNull ==> r == ReturnErr(EINVAL).ret
    ensures fd >= 0 && !bufferNull && nbyte == 0 ==> r == 0
    ensures fd >= 0 && !bufferNull && nbyte > 0 ==> r == ReadFrom(results, 0, 0, nbyte)
    ensures r <= nbyte
  {
    if fd < 0 {
      return ReturnErr(EBADF).ret;
    }
    if bufferNull {
      return ReturnErr(EINVAL).ret;
    }
    if nbyte == 0 {
      return 0;
    }
    var ret: nat := 0;
    var i := 0;
    var isDone := false;
    r := 0;
    while !isDone
      invariant i <= |results| + 1 && (!isDone ==> i <= |results|)
      invariant !isDone ==> ret < nbyte && ReadFrom(results, i, ret, nbyte) == ReadFrom(results, 0, 0, nbyte)
      invariant isDone ==> r == ReadFrom(results, 0, 0, nbyte)
      decreases |results| + 1 - i
    {
      match IoAt(results, i) {
      case Bytes(n) =>
        if n == 0 {
          r, isDone := ret, true;
        } else {
          ret := ret + Moved(n, nbyte - ret);
          if ret >= nbyte {
            r, isDone := ret, true;
          }
        }
      case IoFailed(e) =>
        if e == EINTR {
        } else if e == EAGAIN {
          r, isDone := ret, true;
        } else {
          r, isDone := -1, true;
        }
      }
      i := i + 1;
    }
  }

  /** `AMCFd_Write`: the same guards as `AMCFd_Read`, else the write loop. */
  method Write(fd: CInt, bufferNull: bool, nbyte: nat, results: seq<Io>) returns (r: int)
    ensures fd < 0 ==> r == ReturnErr(EBADF).ret
    ensures fd >= 0 && bufferNull ==> r == ReturnErr(EINVAL).ret
    ensures fd >= 0 && !bufferNull && nbyte == 0 ==> r == 0
    ensures fd >= 0 && !bufferNull && nbyte > 0 ==> r == WriteFrom(results, 0, 0, nbyte)
    ensures r <= nbyte
  {
    if fd < 0 {
      return ReturnErr(EBADF).ret;
    }
    if bufferNull {
      return ReturnErr(EINVAL).ret;
    }
    if nbyte == 0 {
      return 0;
    }
    var ret: nat := 0;
    var i := 0;
    var isDone := false;
    r := 0;
    while !isDone
      invariant i <= |results| + 1 && (!isDone ==> i <= |results|)
      invariant !isDone ==> ret < nbyte && WriteFrom(results, i, ret, nbyte) == WriteFrom(results, 0, 0, nbyte)
      invariant isDone ==> r == WriteFrom(results, 0, 0, nbyte)
      decreases |results| + 1 - i
    {
      match IoAt(results, i) {
      case Bytes(n) =>
        ret := ret + Moved(n, nbyte - ret);
        if ret >= nbyte {
          r, isDone := ret, true;
        }
      case IoFailed(e) =>
        if e == EINTR {
        } else if e == EAGAIN {
          r, isDone := ret, true;
        } else {
          r, isDone := if ret > 0 then ret else -1, true;
        }
      }
      i := i + 1;
    }
  }
}
