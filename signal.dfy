/** The Redox backend of the platform's signal interface (`PalSignal`):
    interval timers emulated over the "itimer:1" scheme with one read and
    at most one write of an `ITimerSpec`, and kill, sigaction and
    sigprocmask passed to their system calls after translating the C
    structures into the kernel's. */
module Signal {
  import opened CTypes
  import opened Kernel

  /** The only timer kind this backend supports. */
  const ITIMER_REAL: Int32 := 0
  /** The scheme path of the real-time interval timer. */
  const ITIMER_PATH: string := "itimer:1"

  /** `struct timeval`: seconds and microseconds. */
  datatype TimeVal = TimeVal(sec: Int64, usec: Int32)

  /** `struct itimerval`: the reload interval and the time to the next expiry. */
  datatype ITimerVal = ITimerVal(interval: TimeVal, value: TimeVal)

  /** `struct sigaction` as this layer sees it: the handler's bit pattern
      (a function pointer, or the default / ignore sentinel), the one-word
      mask and the flags. */
  datatype CSigAction = CSigAction(handler: Usize, mask: Usize, flags: Usize)

  // Unit and layout conversions.

  /** `tv_nsec / 1000`: nanoseconds to microseconds, truncating toward zero. */
  function UsecOf(nsec: Int32): (usec: Int32)
    ensures nsec >= 0 ==> 0 <= nsec - usec * 1000 < 1000
  {
    Div1000(nsec)
  }

  /** `tv_usec * 1000` stored in the kernel's 32-bit `tv_nsec`, wrapping on
      overflow. */
  function NsecOf(usec: Int32): (nsec: Int32)
    ensures -2147483 <= usec <= 2147483 ==> nsec == usec * 1000
  {
    Wrap32(usec * 1000)
  }

  function TimeValOf(t: TimeSpec): TimeVal
  {
    TimeVal(t.sec, UsecOf(t.nsec))
  }

  function TimeSpecOf(t: TimeVal): TimeSpec
  {
    TimeSpec(t.sec, NsecOf(t.usec))
  }

  /** The kernel's timer record as the C caller receives it. */
  function ITimerValOf(s: ITimerSpec): ITimerVal
  {
    ITimerVal(TimeValOf(s.interval), TimeValOf(s.value))
  }

  /** The C caller's timer value as the kernel receives it. */
  function ITimerSpecOf(v: ITimerVal): ITimerSpec
  {
    ITimerSpec(TimeSpecOf(v.interval), TimeSpecOf(v.value))
  }

  /** Microsecond counts whose nanosecond image fits in 32 bits; every valid
      `tv_usec` (below one million) is one. */
  predicate UsecFits(usec: int)
  {
    -2147483 <= usec <= 2147483
  }

  /** Converting microseconds to nanoseconds and back is exact. */
  lemma {:induction false} UsecRoundTrip(usec: Int32)
    requires UsecFits(usec)
    ensures UsecOf(NsecOf(usec)) == usec
  {
    assert NsecOf(usec) == usec * 1000;
  }

  /** Converting a kernel nanosecond count to microseconds and back only
      drops the sub-microsecond remainder. */
  lemma {:induction false} NsecRoundTrip(nsec: Int32)
    requires nsec >= 0
    ensures NsecOf(UsecOf(nsec)) == nsec - nsec % 1000
  {
    var u := UsecOf(nsec);
    assert u == nsec / 1000;
    assert NsecOf(u) == u * 1000;
  }

  /** A timer value whose both microsecond fields fit. */
  predicate ITimerFits(v: ITimerVal)
  {
    UsecFits(v.interval.usec) && UsecFits(v.value.usec)
  }

  /** What setitimer hands the kernel, getitimer gives back unchanged. */
  lemma {:induction false} ITimerRoundTrip(v: ITimerVal)
    requires ITimerFits(v)
    ensures ITimerValOf(ITimerSpecOf(v)) == v
  {
    UsecRoundTrip(v.interval.usec);
    UsecRoundTrip(v.value.usec);
  }

  /** The C one-word mask as the kernel's two-word mask `[m, 0]`. */
  function KernelMask(m: Usize): (k: SigSet)
    ensures k.hi == 0
  {
    SigSet(m, 0)
  }

  /** The kernel's mask as the C one-word mask: index 0 only. */
  function UserMask(k: SigSet): Usize
  {
    k.lo
  }

  /** The mask survives the trip to the kernel and back, and a kernel mask
      survives the trip to C and back exactly when its high word is zero. */
  lemma {:induction false} MaskRoundTrip(m: Usize, k: SigSet)
    ensures UserMask(KernelMask(m)) == m
    ensures KernelMask(UserMask(k)) == k <==> k.hi == 0
  {
  }

  /** The C action as the kernel's: handler bits copied verbatim, mask
      widened, flags copied. */
  function KernelAction(a: CSigAction): (k: SigAction)
    ensures k.mask.hi == 0
  {
    SigAction(a.handler, KernelMask(a.mask), a.flags)
  }

  /** The kernel's action as the C caller receives it. */
  function UserAction(k: SigAction): CSigAction
  {
    CSigAction(k.handler, UserMask(k.mask), k.flags)
  }

  lemma {:induction false} ActionRoundTrip(a: CSigAction)
    ensures UserAction(KernelAction(a)) == a
  {
  }

  // Interval timers.

  /** The kernel calls of `getitimer`: open the timer read-only and
      close-on-exec; if that fails, nothing else; otherwise one read of the
      timer record and one close of the timer descriptor. */
  predicate IsGetRun(run: seq<Syscall>)
  {
    && |run| >= 1
    && run[0].Open? && run[0].path == ITIMER_PATH && run[0].flags == OpenFlags(ReadOnly, true)
    && if run[0].res.Err? then |run| == 1
       else
         var fd := run[0].res.value;
         |run| == 3 && run[1].ReadTimer? && run[1].fd == fd && run[2] == Close(fd)
  }

  /** The kernel calls of `setitimer`: open the timer read-write and
      close-on-exec; if that fails, nothing else; otherwise one read of the
      current record, then one write of the new record only if the read
      succeeded, then one close of the timer descriptor. */
  predicate IsSetRun(run: seq<Syscall>)
  {
    && |run| >= 1
    && run[0].Open? && run[0].path == ITIMER_PATH && run[0].flags == OpenFlags(ReadWrite, true)
    && if run[0].res.Err? then |run| == 1
       else
         var fd := run[0].res.value;
         && |run| >= 3 && run[1].ReadTimer? && run[1].fd == fd
         && if run[1].res.Err? then |run| == 3 && run[2] == Close(fd)
            else |run| == 4 && run[2].WriteTimer? && run[2].fd == fd && run[3] == Close(fd)
  }

  /** A timer run that opened the timer closes it once; one that did not
      open it closes nothing. */
  lemma {:induction false} TimerRunBalanced(run: seq<Syscall>)
    requires IsGetRun(run) || IsSetRun(run)
    ensures Balanced(run)
    ensures Released(run) == if run[0].res.Ok? then 1 else 0
  {
    assert run[..1][..0] == [];
    assert Acquired(run[..1]) == (if run[0].res.Ok? then 1 else 0);
    assert Released(run[..1]) == 0;
    if |run| == 1 {
      assert run[..1] == run;
    } else {
      assert run[..2][..1] == run[..1];
      assert Acquired(run[..2]) == 1 && Released(run[..2]) == 0;
      if |run| == 3 {
        assert run[..2] == run[..|run| - 1];
      } else {
        assert run[..3][..2] == run[..2];
        assert Acquired(run[..3]) == 1 && Released(run[..3]) == 0;
        assert run[..3] == run[..|run| - 1];
      }
    }
  }

  /** `getitimer(which, out)`. A kind other than ITIMER_REAL sets `errno` to
      EINVAL and returns -1 without any kernel call. Otherwise the timer is
      opened, read once and closed (if it opened), and the call returns 0
      exactly when the open and the read succeeded; only then is `*out`
      written, with the seconds copied and the nanoseconds divided by 1000. */
  method GetItimer(p: Process, which: Int32, out: Ptr<ITimerVal>) returns (ret: Int32)
    modifies p, out
    ensures p.open == old(p.open)
    ensures old(p.calls) <= p.calls
    ensures which != ITIMER_REAL ==>
      ret == -1 && p.errno == EINVAL && p.calls == old(p.calls) && out.val == old(out.val)
    ensures which == ITIMER_REAL ==>
      var run := Since(old(p.calls), p.calls);
      && IsGetRun(run)
      && (ret == 0 <==> FirstError(run).None?)
      && (ret == 0 || ret == -1)
      && p.errno == (match FirstError(run) case None => old(p.errno) case Some(code) => code)
      && out.val == if ret == 0 then ITimerValOf(run[1].spec) else old(out.val)
  {
    if which != ITIMER_REAL {
      p.errno := EINVAL;
      return -1;
    }
    var path := ITIMER_PATH;
    var openRes := p.SysOpen(path, OpenFlags(ReadOnly, true));
    var fd := p.E(openRes);
    if fd == USIZE_MAX {
      assert Since(old(p.calls), p.calls) == [Open(path, OpenFlags(ReadOnly, true), openRes)];
      return -1;
    }
    var res, spec := p.SysReadTimer(fd);
    var count := p.E(res);
    p.SysClose(fd);
    assert Since(old(p.calls), p.calls) ==
      [Open(path, OpenFlags(ReadOnly, true), openRes), ReadTimer(fd, res, spec), Close(fd)];
    assert FirstError([Close(fd)]) == None;
    assert FirstError([ReadTimer(fd, res, spec), Close(fd)]) == if res.Err? then Some(res.code) else None;
    if count == USIZE_MAX {
      return -1;
    }
    out.val := ITimerValOf(spec);
    ret := 0;
  }

  /** The call `setitimer` made reached the write, which happens exactly when
      the timer opened and its current value was read. */
  predicate Rearmed(run: seq<Syscall>)
  {
    |run| == 4
  }

  /** `setitimer(which, value, ovalue)`. A kind other than ITIMER_REAL sets
      `errno` to EINVAL and returns -1 without any kernel call. Otherwise the
      timer is opened and its current value read; only if that read
      succeeded is the current value stored in `*ovalue` (when not null) and
      the new value written, with microseconds scaled to nanoseconds. Since
      `*value` is read after `*ovalue` is written, an `ovalue` that aliases
      `value` makes the timer be rewritten with its own current value. The
      timer descriptor is always closed, and the call returns 0 exactly when
      no kernel call before the close failed. */
  method SetItimer(p: Process, which: Int32, value: Ptr<ITimerVal>, ovalue: Ptr?<ITimerVal>)
    returns (ret: Int32)
    modifies p, ovalue
    ensures p.open == old(p.open)
    ensures old(p.calls) <= p.calls
    ensures which != ITIMER_REAL ==>
      && ret == -1 && p.errno == EINVAL && p.calls == old(p.calls)
      && (ovalue != null ==> ovalue.val == old(ovalue.val))
    ensures which == ITIMER_REAL ==>
      var run := Since(old(p.calls), p.calls);
      && IsSetRun(run)
      && (ret == 0 <==> FirstError(run).None?)
      && (ret == 0 || ret == -1)
      && p.errno == (match FirstError(run) case None => old(p.errno) case Some(code) => code)
      && (ovalue != null ==>
            ovalue.val == if Rearmed(run) then ITimerValOf(run[1].spec) else old(ovalue.val))
      && (Rearmed(run) ==>
            run[2].spec == ITimerSpecOf(if ovalue == value then ITimerValOf(run[1].spec) else old(value.val)))
  {
    if which != ITIMER_REAL {
      p.errno := EINVAL;
      return -1;
    }
    var path := ITIMER_PATH;
    var openRes := p.SysOpen(path, OpenFlags(ReadWrite, true));
    var fd := p.E(openRes);
    if fd == USIZE_MAX {
      assert Since(old(p.calls), p.calls) == [Open(path, OpenFlags(ReadWrite, true), openRes)];
      return -1;
    }
    var res, spec := p.SysReadTimer(fd);
    var count := p.E(res);
    if count != USIZE_MAX {
      if ovalue != null {
        ovalue.val := ITimerValOf(spec);
      }
      var written := ITimerSpecOf(value.val);
      var wres := p.SysWriteTimer(fd, written);
      count := p.E(wres);
      p.SysClose(fd);
      assert Since(old(p.calls), p.calls) == [Open(path, OpenFlags(ReadWrite, true), openRes),
        ReadTimer(fd, res, spec), WriteTimer(fd, written, wres), Close(fd)];
      assert FirstError([Close(fd)]) == None;
      assert FirstError([WriteTimer(fd, written, wres), Close(fd)]) == if wres.Err? then Some(wres.code) else None;
      assert FirstError([ReadTimer(fd, res, spec), WriteTimer(fd, written, wres), Close(fd)])
        == FirstError([WriteTimer(fd, written, wres), Close(fd)]);
    } else {
      p.SysClose(fd);
      assert Since(old(p.calls), p.calls) == [Open(path, OpenFlags(ReadWrite, true), openRes),
        ReadTimer(fd, res, spec), Close(fd)];
      assert FirstError([ReadTimer(fd, res, spec), Close(fd)]) == Some(res.code);
    }
    if count == USIZE_MAX {
      return -1;
    }
    ret := 0;
  }

  // Signals.

  /** The `usize` image of `pid as usize` (`pid_t` sign-extended). */
  function KillPid(pid: Int32): (target: Usize)
    ensures AsIsize(target) == pid
  {
    IsizeRoundTrip(pid);
    AsUsize(pid)
  }

  /** The `usize` image of `-(pgrp as isize) as usize`: process group
      `pgrp` named by its negation, as the kernel expects. */
  function KillpgPid(pgrp: Int32): Usize
  {
    AsUsize(-(pgrp as int))
  }

  /** The kernel reads `killpg`'s target back as `-pgrp`, which for a
      positive group is a negative pid. */
  lemma {:induction false} KillpgTarget(pgrp: Int32)
    ensures AsIsize(KillpgPid(pgrp)) == -(pgrp as int)
    ensures pgrp > 0 ==> KillpgPid(pgrp) > I64_MAX
  {
    IsizeRoundTrip(-(pgrp as int));
  }

  /** Signalling group `pgrp` and signalling pid `-pgrp` reach the kernel as
      the same request. */
  lemma {:induction false} KillpgIsKillOfNegation(pgrp: Int32)
    requires pgrp != I32_MIN
    ensures KillpgPid(pgrp) == KillPid(-pgrp)
  {
  }

  /** `kill(pid, sig)`: one kernel call; the result is its value (or -1 with
      `errno` set) truncated to `c_int`. */
  method Kill(p: Process, pid: Int32, sig: Int32) returns (ret: Int32)
    modifies p
    ensures old(p.calls) <= p.calls
    ensures
      var run := Since(old(p.calls), p.calls);
      && |run| == 1 && run[0].Kill? && run[0].pid == KillPid(pid) && run[0].sig == AsUsize(sig)
      && ret == CIntResult(run[0].res)
      && p.errno == ErrnoAfter(old(p.errno), run[0].res)
    ensures p.open == old(p.open)
  {
    var r := p.SysKill(AsUsize(pid), AsUsize(sig));
    var v := p.E(r);
    ret := Wrap32(v);
    assert Since(old(p.calls), p.calls) == [Syscall.Kill(AsUsize(pid), AsUsize(sig), r)];
  }

  /** `killpg(pgrp, sig)`: `kill` addressed to the negated group id. */
  method Killpg(p: Process, pgrp: Int32, sig: Int32) returns (ret: Int32)
    modifies p
    ensures old(p.calls) <= p.calls
    ensures
      var run := Since(old(p.calls), p.calls);
      && |run| == 1 && run[0].Kill? && run[0].pid == KillpgPid(pgrp) && run[0].sig == AsUsize(sig)
      && ret == CIntResult(run[0].res)
      && p.errno == ErrnoAfter(old(p.errno), run[0].res)
    ensures p.open == old(p.open)
  {
    var r := p.SysKill(KillpgPid(pgrp), AsUsize(sig));
    var v := p.E(r);
    ret := Wrap32(v);
    assert Since(old(p.calls), p.calls) == [Syscall.Kill(KillpgPid(pgrp), AsUsize(sig), r)];
  }

  /** The pid `raise` signals: `Sys::getpid()`, which is `e(getpid()) as
      pid_t`, so a failing getpid becomes -1. */
  function RaiseTarget(r: SysResult<Usize>): Int32
  {
    Wrap32(Bridged(r))
  }

  /** A successful getpid names the calling process; a failing one names
      pid -1, which the kernel reads as every process the caller may signal. */
  lemma {:induction false} RaiseTargetMeaning(me: Int32, r: SysResult<Usize>)
    requires r.Ok? ==> r.value == AsUsize(me)
    ensures r.Ok? ==> RaiseTarget(r) == me
    ensures r.Err? ==> RaiseTarget(r) == -1 && KillPid(RaiseTarget(r)) == USIZE_MAX
  {
    if r.Ok? && me < 0 {
      var u := AsUsize(me);
      assert u == me + U64_MOD;
      assert u == (me + U32_MOD) + (U32_MOD - 1) * U32_MOD;
      assert u % U32_MOD == me + U32_MOD;
    }
  }

  /** `raise(sig)`: `kill` addressed to the pid getpid reports, or to -1
      when getpid fails. */
  method Raise(p: Process, sig: Int32) returns (ret: Int32)
    modifies p
    ensures old(p.calls) <= p.calls
    ensures
      var run := Since(old(p.calls), p.calls);
      && |run| == 2 && run[0].GetPid?
      && (run[0].res.Ok? ==> run[0].res.value == AsUsize(p.pid))
      && run[1].Kill? && run[1].pid == KillPid(RaiseTarget(run[0].res)) && run[1].sig == AsUsize(sig)
      && (run[0].res.Ok? ==> run[1].pid == KillPid(p.pid))
      && (run[0].res.Err? ==> run[1].pid == USIZE_MAX)
      && ret == CIntResult(run[1].res)
      && p.errno == ErrnoAfter(ErrnoAfter(old(p.errno), run[0].res), run[1].res)
    ensures p.open == old(p.open)
  {
    var r := p.SysGetpid();
    var v := p.E(r);
    var me := Wrap32(v);
    RaiseTargetMeaning(p.pid, r);
    ghost var mid := p.calls;
    ret := Kill(p, me, sig);
    assert Since(old(p.calls), p.calls) == [GetPid(r)] + Since(mid, p.calls);
  }

  /** `sigaction(sig, act, oact)`: the new action (if any) is handed to the
      kernel with its mask widened to two words; the kernel's old action is
      copied to `*oact` whenever `oact` is not null, even when the call
      failed, keeping only the low word of its mask. */
  method Sigaction(p: Process, sig: Int32, act: Ptr?<CSigAction>, oact: Ptr?<CSigAction>)
    returns (ret: Int32)
    modifies p, oact
    ensures old(p.calls) <= p.calls
    ensures
      var run := Since(old(p.calls), p.calls);
      && |run| == 1 && run[0].SigActionCall? && run[0].sig == AsUsize(sig)
      && run[0].act == (if act == null then None else Some(KernelAction(old(act.val))))
      && run[0].oldAct.Some? == (oact != null)
      && (oact != null ==> oact.val == UserAction(run[0].oldAct.value))
      && ret == CIntResult(run[0].res)
      && p.errno == ErrnoAfter(old(p.errno), run[0].res)
    ensures p.open == old(p.open)
  {
    var newOpt := if act == null then None else Some(KernelAction(act.val));
    var r, oldOpt := p.SysSigAction(AsUsize(sig), newOpt, oact != null);
    var v := p.E(r);
    ret := Wrap32(v);
    if oldOpt.Some? {
      oact.val := UserAction(oldOpt.value);
    }
    assert Since(old(p.calls), p.calls) == [SigActionCall(AsUsize(sig), newOpt, oldOpt, r)];
  }

  /** `sigprocmask(how, set, oset)`: the new mask `*set` (if any) is handed to the
      kernel as `[set, 0]`; the low word of the kernel's old mask is copied
      to `*oset` whenever `oset` is not null, even when the call failed. */
  method Sigprocmask(p: Process, how: Int32, mask: Ptr?<Usize>, oset: Ptr?<Usize>)
    returns (ret: Int32)
    modifies p, oset
    ensures old(p.calls) <= p.calls
    ensures
      var run := Since(old(p.calls), p.calls);
      && |run| == 1 && run[0].SigProcMaskCall? && run[0].how == AsUsize(how)
      && run[0].newSet == (if mask == null then None else Some(KernelMask(old(mask.val))))
      && run[0].oldSet.Some? == (oset != null)
      && (oset != null ==> oset.val == UserMask(run[0].oldSet.value))
      && ret == CIntResult(run[0].res)
      && p.errno == ErrnoAfter(old(p.errno), run[0].res)
    ensures p.open == old(p.open)
  {
    var newOpt := if mask == null then None else Some(KernelMask(mask.val));
    var r, oldOpt := p.SysSigProcMask(AsUsize(how), newOpt, oset != null);
    var v := p.E(r);
    ret := Wrap32(v);
    if oldOpt.Some? {
      oset.val := UserMask(oldOpt.value);
    }
    assert Since(old(p.calls), p.calls) == [SigProcMaskCall(AsUsize(how), newOpt, oldOpt, r)];
  }
}
