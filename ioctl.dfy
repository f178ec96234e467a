/** `ioctl` on Redox. There is no ioctl system call: each terminal request
    is emulated by duplicating the descriptor under a capability name
    ("termios", "flush", "pgrp", "winsize"), doing exactly one read or one
    write of the request's record over the duplicate, and closing it.
    Request codes are the Linux tty ioctl numbers. */
module SysIoctl {
  import opened CTypes
  import opened Kernel

  const TCGETS: Usize := 0x5401
  const TCSETS: Usize := 0x5402
  const TCFLSH: Usize := 0x540B
  const TIOCGPGRP: Usize := 0x540F
  const TIOCSPGRP: Usize := 0x5410
  const TIOCGWINSZ: Usize := 0x5413
  const TIOCSWINSZ: Usize := 0x5414

  /** The seven request codes this backend understands. */
  const KNOWN_REQUESTS: set<Usize> :=
    {TCGETS, TCSETS, TCFLSH, TIOCGPGRP, TIOCSPGRP, TIOCGWINSZ, TIOCSWINSZ}

  /** Whether the request reads the record from the kernel or writes it. */
  datatype Direction = Get | Set

  /** The C type `T` exchanged: `termios`, the flush queue selector (a
      `c_int`), a `pid_t`, or a `winsize`. */
  datatype Record = Termios | Queue | Pgrp | Winsize

  /** `size_of::<T>()` for each record on x86_64: `termios` is four 32-bit
      flag words, a line byte, 32 control characters and two 32-bit speeds,
      padded to 60 bytes; `winsize` is four `u16`. */
  function RecordSize(r: Record): (n: nat)
    ensures n > 0
  {
    match r
    case Termios => 60
    case Queue => 4
    case Pgrp => 4
    case Winsize => 8
  }

  /** Where a request goes: the capability name to duplicate under, the
      direction of the single transfer, and the record transferred. */
  datatype Route = Route(name: string, dir: Direction, record: Record)

  /** The request table of `ioctl`: an exact match on the code; anything
      else has no route. */
  function Dispatch(request: Usize): Option<Route>
  {
    if request == TCGETS then Some(Route("termios", Get, Termios))
    else if request == TCSETS then Some(Route("termios", Set, Termios))
    else if request == TCFLSH then Some(Route("flush", Set, Queue))
    else if request == TIOCGPGRP then Some(Route("pgrp", Get, Pgrp))
    else if request == TIOCSPGRP then Some(Route("pgrp", Set, Pgrp))
    else if request == TIOCGWINSZ then Some(Route("winsize", Get, Winsize))
    else if request == TIOCSWINSZ then Some(Route("winsize", Set, Winsize))
    else None
  }

  /** Exactly the seven known codes have a route. */
  lemma {:induction false} DispatchKnown(request: Usize)
    ensures Dispatch(request).Some? <==> request in KNOWN_REQUESTS
  {
  }

  /** No two codes share a route: each capability-and-direction pair is
      reached by one request only. */
  lemma {:induction false} DispatchInjective(a: Usize, b: Usize)
    requires Dispatch(a).Some? && Dispatch(a) == Dispatch(b)
    ensures a == b
  {
  }

  /** Each capability name carries one record type, and the flush
      capability is write-only. */
  lemma {:induction false} RouteNames(request: Usize)
    requires Dispatch(request).Some?
    ensures var r := Dispatch(request).value;
      && (r.name == "termios" <==> r.record == Termios)
      && (r.name == "flush" <==> r.record == Queue)
      && (r.name == "pgrp" <==> r.record == Pgrp)
      && (r.name == "winsize" <==> r.record == Winsize)
      && (r.record == Queue ==> r.dir == Set)
  {
  }

  /** Every setter other than TCFLSH has a getter for the same capability
      and record, and its code is the getter's plus one. */
  lemma {:induction false} SetterHasGetter(request: Usize)
    requires Dispatch(request).Some? && Dispatch(request).value.dir == Set
    requires Dispatch(request).value.record != Queue
    ensures request >= 1
    ensures var r := Dispatch(request).value;
      Dispatch(request - 1) == Some(Route(r.name, Get, r.record))
  {
  }

  /** The single transfer of a dup exchange: a read of `len` bytes, or a
      write of `data`. */
  datatype Transfer = Reading(len: nat) | Writing(data: seq<Byte>)

  function TransferSize(x: Transfer): nat
  {
    match x
    case Reading(len) => len
    case Writing(data) => |data|
  }

  /** The kernel calls one `dup_read` or `dup_write` makes: a `dup` of `fd`
      under `name`; if that fails, nothing else; otherwise exactly one
      transfer on the duplicate followed by exactly one close of it. */
  predicate IsRun(run: seq<Syscall>, fd: Usize, name: string, x: Transfer)
  {
    && |run| >= 1
    && run[0].Dup? && run[0].fd == fd && run[0].name == name
    && if run[0].res.Err? then |run| == 1
       else
         var d := run[0].res.value;
         && |run| == 3
         && run[2] == Close(d)
         && match x
            case Reading(len) =>
              && run[1].Read? && run[1].fd == d && run[1].len == len
              && |run[1].data| == (if run[1].res.Ok? then run[1].res.value else 0)
              && |run[1].data| <= len
            case Writing(data) =>
              && run[1].Write? && run[1].fd == d && run[1].data == data
              && (run[1].res.Ok? ==> run[1].res.value <= |data|)
  }

  /** What `dup_read` / `dup_write` return for a run: the dup's error, the
      transfer's error, or the byte count divided by the record size. */
  function RunResult(run: seq<Syscall>, fd: Usize, name: string, x: Transfer): SysResult<Usize>
    requires IsRun(run, fd, name, x) && TransferSize(x) > 0
  {
    if run[0].res.Err? then Err(run[0].res.code)
    else
      match run[1].res
      case Err(code) => Err(code)
      case Ok(bytes) => Ok(bytes / TransferSize(x))
  }

  /** A dup exchange leaks nothing: it closes as many descriptors as it
      obtains, and what it closes is the duplicate itself. */
  lemma {:induction false} RunBalanced(run: seq<Syscall>, fd: Usize, name: string, x: Transfer)
    requires IsRun(run, fd, name, x)
    ensures Balanced(run)
    ensures run[0].res.Ok? <==> Released(run) == 1
    ensures run[0].res.Err? <==> Released(run) == 0
  {
    assert run[..1][..0] == [];
    assert Acquired(run[..1]) == (if run[0].res.Ok? then 1 else 0);
    assert Released(run[..1]) == 0;
    if |run| == 3 {
      assert run[..2][..1] == run[..1];
      assert Acquired(run[..2]) == 1 && Released(run[..2]) == 0;
      assert run[..2] == run[..|run| - 1];
    } else {
      assert run[..1] == run;
    }
  }

  /** The result succeeds exactly when both the dup and the transfer did,
      and a successful transfer yields 1 when it moved the whole record
      and 0 when it was short: a short transfer is not an error. */
  lemma {:induction false} RunResultValue(run: seq<Syscall>, fd: Usize, name: string, x: Transfer)
    requires IsRun(run, fd, name, x) && TransferSize(x) > 0
    ensures RunResult(run, fd, name, x).Ok? <==> run[0].res.Ok? && run[1].res.Ok?
    ensures RunResult(run, fd, name, x).Ok? ==>
      RunResult(run, fd, name, x).value == if run[1].res.value == TransferSize(x) then 1 else 0
  {
    if run[0].res.Ok? && run[1].res.Ok? {
      assert run[1].res.value <= TransferSize(x);
      WholeRecords(run[1].res.value, TransferSize(x));
    }
  }

  /** A transfer of at most one record counts 1 record when whole and 0
      when short. */
  lemma WholeRecords(bytes: nat, size: nat)
    requires 0 < size && bytes <= size
    ensures bytes / size == if bytes == size then 1 else 0
  {
    if bytes < size {
      assert bytes / size == 0;
    }
  }

  /** `dup_read(fd, name, t)`: duplicate `fd` under `name` (returning at once
      if that fails), read `size_of::<T>()` bytes into `t`, close the
      duplicate whatever the read returned, and give the byte count divided
      by the record size. */
  method DupRead(p: Process, fd: Int32, name: string, t: array<Byte>) returns (r: SysResult<Usize>)
    requires t.Length > 0
    modifies p, t
    ensures p.errno == old(p.errno) && p.open == old(p.open)
    ensures old(p.calls) <= p.calls
    ensures IsRun(Since(old(p.calls), p.calls), AsUsize(fd), name, Reading(t.Length))
    ensures r == RunResult(Since(old(p.calls), p.calls), AsUsize(fd), name, Reading(t.Length))
    ensures var run := Since(old(p.calls), p.calls);
      t[..] == if |run| == 3 && run[1].res.Ok? then run[1].data + old(t[|run[1].data|..]) else old(t[..])
  {
    var dup := p.SysDup(AsUsize(fd), name);
    if dup.Err? {
      r := Err(dup.code);
      assert Since(old(p.calls), p.calls) == [Dup(AsUsize(fd), name, dup)];
      return;
    }
    var size := t.Length;
    ghost var before := t[..];
    var res := p.SysRead(dup.value, t);
    ghost var data := if res.Ok? then t[..res.value] else [];
    ghost var read := Read(dup.value, size, res, data);
    assert res.Ok? ==> t[..] == data + before[res.value..] by {
      if res.Ok? {
        assert t[..] == t[..res.value] + t[res.value..];
      }
    }
    p.SysClose(dup.value);
    r := match res
      case Ok(bytes) => Ok(bytes / size)
      case Err(code) => Err(code);
    assert Since(old(p.calls), p.calls) == [Dup(AsUsize(fd), name, dup), read, Close(dup.value)];
  }

  /** `dup_write(fd, name, t)`: as `dup_read`, with one write of the record's
      `size_of::<T>()` bytes instead of the read. */
  method DupWrite(p: Process, fd: Int32, name: string, t: seq<Byte>) returns (r: SysResult<Usize>)
    requires |t| > 0
    modifies p
    ensures p.errno == old(p.errno) && p.open == old(p.open)
    ensures old(p.calls) <= p.calls
    ensures IsRun(Since(old(p.calls), p.calls), AsUsize(fd), name, Writing(t))
    ensures r == RunResult(Since(old(p.calls), p.calls), AsUsize(fd), name, Writing(t))
  {
    var dup := p.SysDup(AsUsize(fd), name);
    if dup.Err? {
      r := Err(dup.code);
      assert Since(old(p.calls), p.calls) == [Dup(AsUsize(fd), name, dup)];
      return;
    }
    var size := |t|;
    var res := p.SysWrite(dup.value, t);
    p.SysClose(dup.value);
    r := match res
      case Ok(bytes) => Ok(bytes / size)
      case Err(code) => Err(code);
    var run := Since(old(p.calls), p.calls);
    assert run == [Dup(AsUsize(fd), name, dup), Write(dup.value, t, res), Close(dup.value)];
  }

  /** What `ioctl` demands of `out`: for every request other than TCFLSH it
      points to a record of the request's type. */
  predicate ArgFits(request: Usize, argLength: nat)
  {
    Dispatch(request).Some? && Dispatch(request).value.record != Queue ==>
      argLength == RecordSize(Dispatch(request).value.record)
  }

  /** The transfer a routed request performs. A getter reads the whole record
      `out` points to; TCFLSH writes the pointer's own value cast to `c_int`,
      without dereferencing it; any other setter writes the record. */
  function TransferOf(route: Route, out: Usize, arg: seq<Byte>): Transfer
  {
    if route.dir == Get then Reading(|arg|)
    else if route.record == Queue then Writing(IntBytes(Wrap32(out)))
    else Writing(arg)
  }

  /** `ioctl(fd, request, out)`. `out` is the argument pointer's value and
      `arg` the record it points to. An unknown request sets `errno` to
      EINVAL and returns -1 without any kernel call. A known one makes the
      single dup exchange of its route and returns 0 exactly when the dup
      and the transfer both succeeded, -1 with the kernel's code in `errno`
      otherwise; a getter's record receives the bytes the kernel delivered. */
  method Ioctl(p: Process, fd: Int32, request: Usize, out: Usize, arg: array<Byte>) returns (ret: Int32)
    requires ArgFits(request, arg.Length)
    modifies p, arg
    ensures p.open == old(p.open)
    ensures old(p.calls) <= p.calls
    ensures Dispatch(request).None? ==>
      ret == -1 && p.errno == EINVAL && p.calls == old(p.calls) && arg[..] == old(arg[..])
    ensures Dispatch(request).Some? ==>
      var route := Dispatch(request).value;
      var x := TransferOf(route, out, old(arg[..]));
      var run := Since(old(p.calls), p.calls);
      && TransferSize(x) > 0
      && IsRun(run, AsUsize(fd), route.name, x)
      && (ret == 0 <==> RunResult(run, AsUsize(fd), route.name, x).Ok?)
      && (ret == 0 || ret == -1)
      && p.errno == (match RunResult(run, AsUsize(fd), route.name, x)
                     case Ok(_) => old(p.errno)
                     case Err(code) => code)
      && arg[..] == if route.dir == Get && |run| == 3 && run[1].res.Ok?
                    then run[1].data + old(arg[|run[1].data|..])
                    else old(arg[..])
  {
    match Dispatch(request)
    case None =>
      p.errno := EINVAL;
      ret := -1;
    case Some(route) =>
      ghost var x := TransferOf(route, out, arg[..]);
      var res: SysResult<Usize>;
      if route.dir == Get {
        res := DupRead(p, fd, route.name, arg);
      } else if route.record == Queue {
        var queue := Wrap32(out);
        res := DupWrite(p, fd, route.name, IntBytes(queue));
      } else {
        res := DupWrite(p, fd, route.name, arg[..]);
      }
      RunResultValue(Since(old(p.calls), p.calls), AsUsize(fd), route.name, x);
      var v := p.E(res);
      ret := if v == USIZE_MAX then -1 else 0;
  }

  /** The TCFLSH payload carries the argument pointer's low 32 bits: reading
      the written bytes back as a `c_int` gives `out as c_int`. */
  lemma {:induction false} FlushPayload(out: Usize)
    ensures TransferOf(Route("flush", Set, Queue), out, []) == Writing(IntBytes(Wrap32(out)))
    ensures IntOfBytes(IntBytes(Wrap32(out))) == Wrap32(out)
  {
    IntBytesRoundTrip(Wrap32(out));
  }
}
