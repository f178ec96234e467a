/** The Redox kernel interface the platform layer calls (the `syscall` crate)
    and the `e` error bridge. The kernel is not modelled: every call may
    succeed or fail, nondeterministically, so each contract below speaks of
    every outcome a kernel (or an injected fault) can produce. A `Process`
    records each kernel call it made, with its outcome, in `calls`, keeps the
    set of descriptors this layer has opened or duplicated and not yet closed
    in `open`, and holds the C library's `errno` slot. */
module Kernel {
  import opened CTypes

  /** `EINVAL`, the code every unsupported request or timer kind reports. */
  const EINVAL: Int32 := 22

  /** `syscall::Result<T>`: a value, or the kernel's error code. */
  datatype SysResult<T> = Ok(value: T) | Err(code: Int32)

  /** `syscall::TimeSpec`. */
  datatype TimeSpec = TimeSpec(sec: Int64, nsec: Int32)

  /** `syscall::ITimerSpec`, the record read from and written to "itimer:1". */
  datatype ITimerSpec = ITimerSpec(interval: TimeSpec, value: TimeSpec)

  /** The kernel's signal mask, `[u64; 2]`: `lo` is index 0, `hi` index 1. */
  datatype SigSet = SigSet(lo: Usize, hi: Usize)

  /** `syscall::SigAction`: the handler as a bare machine word, the mask and the flags. */
  datatype SigAction = SigAction(handler: Usize, mask: SigSet, flags: Usize)

  datatype Access = ReadOnly | ReadWrite

  /** The flags of `open`: `O_RDONLY` or `O_RDWR`, and whether `O_CLOEXEC` is set. */
  datatype OpenFlags = OpenFlags(access: Access, cloexec: bool)

  /** One kernel call made by this layer, with its arguments and its outcome. */
  datatype Syscall =
    | Dup(fd: Usize, name: string, res: SysResult<Usize>)
    | Open(path: string, flags: OpenFlags, res: SysResult<Usize>)
      /** A read of `len` bytes; `data` is what the kernel delivered. */
    | Read(fd: Usize, len: nat, res: SysResult<Usize>, data: seq<Byte>)
    | Write(fd: Usize, data: seq<Byte>, res: SysResult<Usize>)
      /** A read of a whole `ITimerSpec`; `spec` is what the buffer then holds. */
    | ReadTimer(fd: Usize, res: SysResult<Usize>, spec: ITimerSpec)
    | WriteTimer(fd: Usize, spec: ITimerSpec, res: SysResult<Usize>)
    | Close(fd: Usize)
    | Kill(pid: Usize, sig: Usize, res: SysResult<Usize>)
    | GetPid(res: SysResult<Usize>)
      /** `oldAct` is present exactly when an old action was asked for. */
    | SigActionCall(sig: Usize, act: Option<SigAction>, oldAct: Option<SigAction>, res: SysResult<Usize>)
    | SigProcMaskCall(how: Usize, newSet: Option<SigSet>, oldSet: Option<SigSet>, res: SysResult<Usize>)

  /** Number of successful `dup` and `open` calls in a trace. */
  function Acquired(calls: seq<Syscall>): nat
  {
    if calls == [] then 0
    else
      var gained :=
        match calls[|calls| - 1]
        case Dup(_, _, r) => if r.Ok? then 1 else 0
        case Open(_, _, r) => if r.Ok? then 1 else 0
        case _ => 0;
      Acquired(calls[..|calls| - 1]) + gained
  }

  /** Number of `close` calls in a trace. */
  function Released(calls: seq<Syscall>): nat
  {
    if calls == [] then 0
    else Released(calls[..|calls| - 1]) + (if calls[|calls| - 1].Close? then 1 else 0)
  }

  /** Both counts add up over consecutive stretches of a trace. */
  lemma {:induction false} CountsAppend(a: seq<Syscall>, b: seq<Syscall>)
    ensures Acquired(a + b) == Acquired(a) + Acquired(b)
    ensures Released(a + b) == Released(a) + Released(b)
  {
    if b != [] {
      var b' := b[..|b| - 1];
      assert (a + b)[..|a + b| - 1] == a + b';
      CountsAppend(a, b');
    } else {
      assert a + b == a;
    }
  }

  /** The calls made since `before`, which `now` extends. */
  function Since(before: seq<Syscall>, now: seq<Syscall>): seq<Syscall>
    requires before <= now
  {
    now[|before|..]
  }

  /** The error code of the first call in `run` that failed, if any. */
  function FirstError(run: seq<Syscall>): Option<Int32>
  {
    if run == [] then None
    else if !run[0].Close? && run[0].res.Err? then Some(run[0].res.code)
    else FirstError(run[1..])
  }

  /** What the `e` bridge yields for `r`: its value, or `!0` on failure. */
  function Bridged(r: SysResult<Usize>): Usize
  {
    if r.Ok? then r.value else USIZE_MAX
  }

  /** The `errno` slot after the `e` bridge has seen `r`. */
  function ErrnoAfter(errno: Int32, r: SysResult<Usize>): Int32
  {
    if r.Ok? then errno else r.code
  }

  /** `e(r) as c_int`: a failure becomes -1 and a success of 0 stays 0. */
  function CIntResult(r: SysResult<Usize>): (ret: Int32)
    ensures r.Err? ==> ret == -1
    ensures r == Ok(0) ==> ret == 0
  {
    Wrap32(Bridged(r))
  }

  /** A stretch of calls that closes as many descriptors as it acquires. */
  predicate Balanced(calls: seq<Syscall>)
  {
    Acquired(calls) == Released(calls)
  }

  /** Any sequence of balanced stretches is balanced: no library call leaks
      a descriptor, so no sequence of them does. */
  lemma {:induction false} BalancedAppend(a: seq<Syscall>, b: seq<Syscall>)
    requires Balanced(a) && Balanced(b)
    ensures Balanced(a + b)
  {
    CountsAppend(a, b);
  }

  class Process {
    /** `platform::errno`, the process-wide error slot. */
    var errno: Int32
    /** Every kernel call made so far, oldest first. */
    var calls: seq<Syscall>
    /** Descriptors this layer obtained from `dup` or `open` and has not closed. */
    var open: set<Usize>
    /** The id the kernel reports for this process. */
    const pid: Int32

    constructor (pid: Int32)
      ensures this.pid == pid && errno == 0 && calls == [] && open == {}
    {
      this.pid := pid;
      errno := 0;
      calls := [];
      open := {};
    }

    /** The outcome a kernel may give a call that yields a descriptor: a fresh
        descriptor other than `usize::MAX`, or an error. */
    predicate FreshFd(r: SysResult<Usize>)
      reads this
    {
      r.Ok? ==> r.value !in open && r.value != USIZE_MAX
    }

    /** Picks any outcome the kernel may give: the failure injection point. */
    method ChooseFd() returns (r: SysResult<Usize>)
      ensures FreshFd(r)
    {
      var ok: bool :| true;
      var code: Int32 :| true;
      var d: Usize :| true;
      r := if ok && d !in open && d != USIZE_MAX then Ok(d) else Err(code);
    }

    /** Picks any outcome the kernel may give a transfer of `limit` bytes. */
    method ChooseCount(limit: nat) returns (r: SysResult<Usize>)
      ensures r.Ok? ==> r.value <= limit
    {
      var ok: bool :| true;
      var code: Int32 :| true;
      var n: Usize :| n <= limit;
      r := if ok then Ok(n) else Err(code);
    }

    /** `syscall::dup(fd, name)`: a new descriptor for the `name` sub-resource of `fd`. */
    method SysDup(fd: Usize, name: string) returns (r: SysResult<Usize>)
      modifies this
      ensures r.Ok? ==> r.value !in old(open) && r.value != USIZE_MAX
      ensures open == if r.Ok? then old(open) + {r.value} else old(open)
      ensures calls == old(calls) + [Dup(fd, name, r)]
      ensures errno == old(errno)
    {
      r := ChooseFd();
      if r.Ok? {
        open := open + {r.value};
      }
      calls := calls + [Dup(fd, name, r)];
    }

    /** `syscall::open(path, flags)`. */
    method SysOpen(path: string, flags: OpenFlags) returns (r: SysResult<Usize>)
      modifies this
      ensures r.Ok? ==> r.value !in old(open) && r.value != USIZE_MAX
      ensures open == if r.Ok? then old(open) + {r.value} else old(open)
      ensures calls == old(calls) + [Open(path, flags, r)]
      ensures errno == old(errno)
    {
      r := ChooseFd();
      if r.Ok? {
        open := open + {r.value};
      }
      calls := calls + [Open(path, flags, r)];
    }

    /** `syscall::read(fd, buf)`: the kernel fills some prefix of `buf` (at
        most all of it) and reports how many bytes it delivered. */
    method SysRead(fd: Usize, buf: array<Byte>) returns (r: SysResult<Usize>)
      modifies this, buf
      ensures r.Ok? ==> r.value <= buf.Length
      ensures r.Ok? ==> buf[r.value..] == old(buf[r.value..])
      ensures r.Err? ==> buf[..] == old(buf[..])
      ensures calls == old(calls) + [Read(fd, buf.Length, r, if r.Ok? then buf[..r.value] else [])]
      ensures open == old(open) && errno == old(errno)
    {
      r := ChooseCount(buf.Length);
      if r.Ok? {
        var n := r.value;
        assert |seq(n, _ => 0)| == n;
        var data: seq<Byte> :| |data| == n;
        forall i | 0 <= i < n {
          buf[i] := data[i];
        }
        assert buf[..n] == data;
      }
      calls := calls + [Read(fd, buf.Length, r, if r.Ok? then buf[..r.value] else [])];
    }

    /** `syscall::write(fd, data)`: the kernel accepts at most all of `data`. */
    method SysWrite(fd: Usize, data: seq<Byte>) returns (r: SysResult<Usize>)
      modifies this
      ensures r.Ok? ==> r.value <= |data|
      ensures calls == old(calls) + [Write(fd, data, r)]
      ensures open == old(open) && errno == old(errno)
    {
      r := ChooseCount(|data|);
      calls := calls + [Write(fd, data, r)];
    }

    /** `syscall::read(fd, &mut spec)` on a timer: `spec` is what the
        caller's `ITimerSpec` buffer holds afterwards. */
    method SysReadTimer(fd: Usize) returns (r: SysResult<Usize>, spec: ITimerSpec)
      modifies this
      ensures r.Ok? ==> r.value <= ITIMERSPEC_SIZE
      ensures calls == old(calls) + [ReadTimer(fd, r, spec)]
      ensures open == old(open) && errno == old(errno)
    {
      r := ChooseCount(ITIMERSPEC_SIZE);
      spec :| true;
      calls := calls + [ReadTimer(fd, r, spec)];
    }

    /** `syscall::write(fd, &spec)` on a timer. */
    method SysWriteTimer(fd: Usize, spec: ITimerSpec) returns (r: SysResult<Usize>)
      modifies this
      ensures r.Ok? ==> r.value <= ITIMERSPEC_SIZE
      ensures calls == old(calls) + [WriteTimer(fd, spec, r)]
      ensures open == old(open) && errno == old(errno)
    {
      r := ChooseCount(ITIMERSPEC_SIZE);
      calls := calls + [WriteTimer(fd, spec, r)];
    }

    /** `syscall::close(fd)`. Its result is discarded by every caller, so it is
        not returned; the descriptor is no longer this layer's either way. */
    method SysClose(fd: Usize)
      modifies this
      ensures calls == old(calls) + [Close(fd)]
      ensures open == old(open) - {fd} && errno == old(errno)
    {
      open := open - {fd};
      calls := calls + [Close(fd)];
    }

    /** `syscall::kill(pid, sig)`; a negative `pid` arrives as its `usize` image. */
    method SysKill(pid: Usize, sig: Usize) returns (r: SysResult<Usize>)
      modifies this
      ensures calls == old(calls) + [Kill(pid, sig, r)]
      ensures open == old(open) && errno == old(errno)
    {
      r :| true;
      calls := calls + [Kill(pid, sig, r)];
    }

    /** `syscall::sigaction(sig, act, oldact)`: `oldAct` is the content of
        the old-action buffer afterwards, present exactly when one was passed. */
    method SysSigAction(sig: Usize, act: Option<SigAction>, wantOld: bool)
      returns (r: SysResult<Usize>, oldAct: Option<SigAction>)
      modifies this
      ensures oldAct.Some? == wantOld
      ensures calls == old(calls) + [SigActionCall(sig, act, oldAct, r)]
      ensures open == old(open) && errno == old(errno)
    {
      r :| true;
      if wantOld {
        var a: SigAction :| true;
        oldAct := Some(a);
      } else {
        oldAct := None;
      }
      calls := calls + [SigActionCall(sig, act, oldAct, r)];
    }

    /** `syscall::sigprocmask(how, set, oldset)`, shaped like `SysSigAction`. */
    method SysSigProcMask(how: Usize, newSet: Option<SigSet>, wantOld: bool)
      returns (r: SysResult<Usize>, oldSet: Option<SigSet>)
      modifies this
      ensures oldSet.Some? == wantOld
      ensures calls == old(calls) + [SigProcMaskCall(how, newSet, oldSet, r)]
      ensures open == old(open) && errno == old(errno)
    {
      r :| true;
      if wantOld {
        var m: SigSet :| true;
        oldSet := Some(m);
      } else {
        oldSet := None;
      }
      calls := calls + [SigProcMaskCall(how, newSet, oldSet, r)];
    }

    /** `syscall::getpid()`: when it succeeds, the kernel reports this
        process's id. */
    method SysGetpid() returns (r: SysResult<Usize>)
      modifies this
      ensures r.Ok? ==> r.value == AsUsize(pid)
      ensures calls == old(calls) + [GetPid(r)]
      ensures open == old(open) && errno == old(errno)
    {
      var ok: bool :| true;
      var code: Int32 :| true;
      r := if ok then Ok(AsUsize(pid)) else Err(code);
      calls := calls + [GetPid(r)];
    }

    /** The `e` bridge: a success passes its value through; a failure stores
        its code in `errno` and yields `!0` (`usize::MAX`). */
    method E(r: SysResult<Usize>) returns (v: Usize)
      modifies this`errno
      ensures v == Bridged(r) && errno == ErrnoAfter(old(errno), r)
      ensures r.Ok? ==> v == r.value && errno == old(errno)
      ensures r.Err? ==> v == USIZE_MAX && errno == r.code
    {
      match r
      case Ok(x) =>
        v := x;
      case Err(code) =>
        errno := code;
        v := USIZE_MAX;
    }
  }

  /** `size_of::<ITimerSpec>()`: two `TimeSpec`s of an `i64` and an `i32`,
      each padded to 16 bytes. */
  const ITIMERSPEC_SIZE: nat := 32
}
