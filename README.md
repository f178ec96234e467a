# relibc on Redox: ioctl emulation, signal and timer backend, wide strings

This project models three parts of relibc, the Rust C library, as they run on
the Redox kernel, and proves properties of each.

- **ioctl emulation** (`SysIoctl`, ioctl.dfy). Redox has no ioctl system
  call. Each known terminal request code is routed to a capability name and
  a direction. The descriptor is duplicated under that name, one read or
  one write of the request's record is made over the duplicate, and the
  duplicate is closed.
- **Signal and timer backend** (`Signal`, signal.dfy). `getitimer` and
  `setitimer` go through the `itimer:1` scheme: open, read and/or write an
  `ITimerSpec`, then close. Nanoseconds and microseconds are converted
  both ways. `kill`, `killpg` and `raise` map onto the kernel's `kill`.
  `sigaction` and `sigprocmask` widen the one-word C mask to the kernel's
  two-word mask and read back its low word.
- **Wide-character primitives** (`WideString`, wchar.dfy, and
  `Multibyte`, mbs.dfy). These are the `<wchar.h>` loops over arrays of
  `wchar_t`: `wcslen`, `wcschr`, `wcsrchr`, `wcscspn`, `wcscmp`,
  `wcsncmp`, `wmemcmp`, `wmemchr`, `wmemset`, `wcscpy`, `wcsncpy`, `wcscat`
  and `wcsncat`. Also modelled are `wctob`, `mbsinit`, and the driver loop
  of `mbsnrtowcs`/`mbsrtowcs` over an abstract `mbrtowc` step.

Two support modules sit underneath:

- `CTypes` (ctypes.dfy) holds C scalar types, Rust's wrapping casts,
  truncating division and a one-cell pointer class.
- `Kernel` (kernel.dfy) models the process as seen by this layer.
  - It holds the `errno` slot and the descriptors it has open.
  - It keeps the trace of every kernel call made, oldest first.
  - Each system call is a method whose result is chosen nondeterministically
    among every failure and every success the kernel interface allows. Every
    kernel failure can therefore be injected. A successful `dup` or `open`
    yields a descriptor not already held and never `usize::MAX`, and a
    successful `getpid` reports the process's own id.
  - The `e` bridge stores a failure's code in `errno` and yields `!0`.

The imperative operations are methods.

- A syscall-making operation states the exact shape of the calls it adds
  to the trace (`IsRun`, `IsGetRun`, `IsSetRun`). It also states its
  return value, `errno`, and what it writes through its pointers.
- A loop over a wide string is proved against a specification function on
  the array contents.
- Lemmas state what those functions mean:
  - descriptor balance;
  - unit round trips;
  - the first mismatch of a comparison;
  - the string a copy leaves behind.

## Model

| member | source | states |
|---|---|---|
| SysIoctl.DispatchKnown | src/header/sys_ioctl/redox.rs:53-115 | a request is routed exactly when it is one of the seven codes TCGETS, TCSETS, TCFLSH, TIOCGPGRP, TIOCSPGRP, TIOCGWINSZ, TIOCSWINSZ (0x5401, 0x5402, 0x540B, 0x540F, 0x5410, 0x5413, 0x5414) |
| SysIoctl.DispatchInjective | src/header/sys_ioctl/redox.rs:54-110 | no two request codes share a capability-and-direction route, so each request reaches one capability only |
| SysIoctl.RouteNames | src/header/sys_ioctl/redox.rs:54-110 | each capability name ("termios", "flush", "pgrp", "winsize") carries exactly one record type, and "flush" is write-only |
| SysIoctl.SetterHasGetter | src/header/sys_ioctl/redox.rs:12-21 | every setter but TCFLSH has a getter for the same capability and record, whose code is the setter's minus one |
| SysIoctl.RunBalanced | src/header/sys_ioctl/redox.rs:23-49 | a dup exchange closes as many descriptors as it obtains: one close when the dup succeeded, none when it failed |
| SysIoctl.RunResultValue | src/header/sys_ioctl/redox.rs:26-34 | the exchange succeeds exactly when both the dup and the transfer did; the value is 1 for a whole record and 0 for a short transfer, which is not an error |
| SysIoctl.DupRead | src/header/sys_ioctl/redox.rs:23-35 | the calls made are a dup of `fd` under the name, then, only if it succeeded, one read of `size_of::<T>()` bytes on the duplicate and one close of it; the result is the dup's error, the read's error, or bytes / size; the record receives the bytes read; `errno` and the open descriptors are unchanged |
| SysIoctl.DupWrite | src/header/sys_ioctl/redox.rs:37-49 | as DupRead, with one write of exactly the record's bytes instead of the read |
| SysIoctl.Ioctl | src/header/sys_ioctl/redox.rs:52-116 | an unknown request sets `errno` to EINVAL, returns -1 and makes no kernel call; a known one makes its route's single dup exchange and returns 0 exactly when dup and transfer both succeeded, else -1 with the kernel's code in `errno`; a getter's record receives the data read |
| SysIoctl.FlushPayload | src/header/sys_ioctl/redox.rs:71-78 | TCFLSH writes the argument pointer's own value truncated to `c_int`, not the memory it points to, and those bytes read back as that value |
| Kernel.CIntResult | src/platform/redox/signal.rs:47 | `e(r) as c_int` is -1 for every failure and 0 for a success of 0 |
| Kernel.Process.E | src/platform/redox/signal.rs:22-25 | the `e` bridge passes a success through with `errno` untouched, and turns a failure into `!0` with its code stored in `errno` |
| Kernel.CountsAppend | src/platform/redox/signal.rs:22-30 | descriptors obtained and closed add up over consecutive stretches of calls |
| Kernel.BalancedAppend | src/platform/redox/signal.rs:67-94 | a sequence of calls that each close what they open leaks nothing |
| Signal.UsecOf | src/platform/redox/signal.rs:38 | `tv_nsec / 1000` truncates: for a non-negative count the dropped remainder is below 1000 |
| Signal.NsecOf | src/platform/redox/signal.rs:86 | `tv_usec * 1000` is exact whenever the product fits in the 32-bit `tv_nsec` |
| Signal.UsecRoundTrip | src/platform/redox/signal.rs:85-88 | microseconds stored as nanoseconds by setitimer convert back unchanged by getitimer's division |
| Signal.NsecRoundTrip | src/platform/redox/signal.rs:37-40 | a kernel nanosecond count converted to microseconds and back loses only its sub-microsecond remainder |
| Signal.ITimerRoundTrip | src/platform/redox/signal.rs:79-88 | a timer value setitimer hands the kernel is the one getitimer reports back, both fields, for every valid microsecond count |
| Signal.TimerRunBalanced | src/platform/redox/signal.rs:22-34 | a getitimer or setitimer run closes the timer exactly once when the open succeeded and closes nothing when it failed |
| Signal.GetItimer | src/platform/redox/signal.rs:13-44 | a kind other than ITIMER_REAL sets EINVAL, returns -1, makes no call and leaves `*out`; otherwise it opens "itimer:1" read-only and close-on-exec, and, if that opened, makes one read and one close; it returns 0 exactly when no call failed, else -1 with the first failure's code in `errno`; `*out` is written only on success, seconds copied and nanoseconds divided by 1000 |
| Signal.SetItimer | src/platform/redox/signal.rs:58-101 | as GetItimer with a read-write open; the write happens only after a successful read; `*old` is filled only when it is non-null and the read succeeded; the kernel receives `*new` with microseconds times 1000, read after `*old` was written; the close always follows a successful open; it returns 0 exactly when no call failed |
| Signal.KernelMask | src/platform/redox/signal.rs:137 | the kernel mask built from a C mask has a zero high word |
| Signal.MaskRoundTrip | src/platform/redox/signal.rs:137-146 | a C mask survives the trip to the kernel and back; a kernel mask survives the trip to C and back exactly when its high word is zero |
| Signal.KernelAction | src/platform/redox/signal.rs:107-112 | the kernel action built from a C action has a zero high mask word |
| Signal.ActionRoundTrip | src/platform/redox/signal.rs:107-128 | a C action (handler bits, mask, flags) survives the trip to the kernel and back unchanged |
| Signal.KillPid | src/platform/redox/signal.rs:47 | `pid as usize` sign-extends: read back as `isize` it is the pid |
| Signal.KillpgTarget | src/platform/redox/signal.rs:51 | the kernel target of killpg reads back as the negated group id, so a positive group maps above `isize::MAX` |
| Signal.KillpgIsKillOfNegation | src/platform/redox/signal.rs:50-52 | killpg(g) addresses the kernel exactly as kill(-g) does |
| Signal.Kill | src/platform/redox/signal.rs:46-48 | one kernel kill with the sign-extended pid and signal; the result is the bridged value as `c_int`, and `errno` takes the failure's code |
| Signal.Killpg | src/platform/redox/signal.rs:50-52 | one kernel kill addressed to the negated group id; result and `errno` as for Kill |
| Signal.Raise | src/platform/redox/signal.rs:54-56 | a kernel getpid, then one kernel kill. The kill is addressed to this process's own pid when getpid succeeds, and to pid -1 (`usize::MAX`) when it fails. The result is kill's bridged value as `c_int`; `errno` is set by each failure in turn |
| Signal.RaiseTargetMeaning | src/platform/redox/signal.rs:54-56 | the pid raise signals is the process's own id after a successful getpid, and -1 after a failed one |
| Signal.Sigaction | src/platform/redox/signal.rs:103-131 | one kernel call carrying the new action widened to a two-word mask (none if `act` is null); an old action is asked for exactly when `oact` is non-null and is then copied to `*oact`, low mask word only, even when the call failed; result and `errno` as for Kill |
| Signal.Sigprocmask | src/platform/redox/signal.rs:133-149 | one kernel call carrying `[*set, 0]` (none if `set` is null); the old mask is asked for exactly when `oset` is non-null and its low word is copied there even when the call failed; result and `errno` as for Kill |
| WideString.NLen | src/header/wchar/mod.rs:376-383 | the number of characters a bounded copy takes: at most `n`, all nonzero, and followed by a terminator when below `n` |
| WideString.Strlen | src/header/wchar/mod.rs:359-367 | the length is the index of a 0, and every earlier element is nonzero |
| WideString.FindFrom | src/header/wchar/mod.rs:298-308 | the search result holds `wc`, lies at or before the terminator, and nothing earlier holds `wc`; no result means `wc` is absent up to and including the terminator |
| WideString.LastBelow | src/header/wchar/mod.rs:432-444 | the result is the last position below the bound holding `wc`; no result means no position there holds it |
| WideString.FindLast | src/header/wchar/mod.rs:432-444 | searching backwards for 0 finds nothing, because the terminator itself is never a match |
| WideString.CspnFrom | src/header/wchar/mod.rs:335-346 | the span lies within the string, no character in it occurs in the second string, and the character after it does |
| WideString.Wcslen | src/header/wchar/mod.rs:359-367 | returns the index of the first 0 |
| WideString.Wcschr | src/header/wchar/mod.rs:298-308 | returns the first index holding `wc`, testing for a match before the terminator, so 0 finds the terminator |
| WideString.Wcsrchr | src/header/wchar/mod.rs:432-444 | returns the last index before the terminator holding `wc`, or none |
| WideString.Wcscspn | src/header/wchar/mod.rs:335-346 | returns the length of the longest prefix of `ws1` whose characters `wcschr` does not find in `ws2` |
| WideString.Wcsncmp | src/header/wchar/mod.rs:391-402 | returns the comparison of at most `n` positions that stops at a shared terminator |
| WideString.Wcscmp | src/header/wchar/mod.rs:311-313 | returns the string comparison bounded only by the terminators |
| WideString.Wmemcmp | src/header/wchar/mod.rs:530-539 | returns the comparison of exactly `n` positions, terminators included |
| WideString.Wmemchr | src/header/wchar/mod.rs:520-527 | returns the first index below `n` holding `wc`, ignoring terminators, or none when no such index exists |
| WideString.Wmemset | src/header/wchar/mod.rs:568-573 | sets exactly positions 0 to n-1 to `wc` and leaves every other position as it was |
| WideString.Wcscpy | src/header/wchar/mod.rs:322-332 | the destination holds the source string and its terminator, and is unchanged after them |
| WideString.Wcsncpy | src/header/wchar/mod.rs:405-424 | the destination holds the source cut at `n`, then zeros up to `n`, and is unchanged from `n` on |
| WideString.Wcsncat | src/header/wchar/mod.rs:370-388 | the destination keeps its string, then gets at most `n` characters of the source and one terminator, and is unchanged after them |
| WideString.Wcscat | src/header/wchar/mod.rs:293-295 | as Wcsncat with no bound but the source's terminator |
| WideString.FindMeaning | src/header/wchar/mod.rs:298-308 | `wcschr` finds `wc` exactly when it occurs in the string or is its terminator; searching for 0 gives the string's length |
| WideString.FindLastMeaning | src/header/wchar/mod.rs:432-444 | `wcsrchr` finds `wc` exactly when it occurs before the terminator |
| WideString.CspnMeaning | src/header/wchar/mod.rs:335-346 | no character of the span occurs in the second string, terminator included; a span that ends before the terminator ends at a character that occurs in the second string |
| WideString.WrapDiff | src/header/wchar/mod.rs:395-396 | the `wchar_t` difference of two different characters is never 0, and its sign orders them whenever the exact difference fits in 32 bits |
| WideString.CmpFromMeaning | src/header/wchar/mod.rs:392-401 | the comparison loop from any agreeing position returns 0 exactly when there is no first mismatch, and otherwise the difference at that mismatch |
| WideString.CmpMeaning | src/header/wchar/mod.rs:391-402 | `wcsncmp`/`wmemcmp` return 0 exactly when the compared positions agree (up to a shared terminator for `wcsncmp`), otherwise the difference at the first mismatch, whose sign orders the arguments when it fits |
| WideString.CmpSymmetric | src/header/wchar/mod.rs:391-402 | comparing in either order gives 0 in the same cases |
| WideString.StrCopyMeaning | src/header/wchar/mod.rs:322-332 | after `wcscpy` the destination holds a string of the same length and contents as the source |
| WideString.NCopyMeaning | src/header/wchar/mod.rs:405-424 | after `wcsncpy` the first characters are the source's, the rest up to `n` are zero, positions from `n` on are untouched, and a source shorter than `n` leaves the same string behind |
| WideString.NCatMeaning | src/header/wchar/mod.rs:370-388 | after `wcsncat` the destination holds one string: its old string followed by at most `n` characters of the source |
| Multibyte.Wctob | src/header/wchar/mod.rs:506-512 | a character maps to a single byte exactly when it is at most 0x7F, and then to itself; anything else gives EOF |
| Multibyte.Mbsinit | src/header/wchar/mod.rs:112-119 | the answer is 1 exactly for a null state pointer and 0 otherwise |
| Multibyte.Run | src/header/wchar/mod.rs:169-205 | the conversion loop only appends: the characters already converted are a prefix of those it ends with |
| Multibyte.RunShape | src/header/wchar/mod.rs:169-205 | the conversion loop stops inside the source, stores at most `dst_len` characters (strictly fewer when it stops at a null character) and only nonzero ones, stops at the limit only when a bound is reached, resets the offset after a null character, stops before the end on an illegal or incomplete character, and after an incomplete character the saved state is restored, so resuming from the returned source and state meets the same incomplete character |
| Multibyte.IllegalReadsAsOneChar | src/header/wchar/mod.rs:174-178 | as written, an illegal first byte and a one-byte source decoding to 'A' both return 1 |
| Multibyte.ReturnValueFlagsIllegal | src/header/wchar/mod.rs:174-178 | with the corrected return, `(size_t)-1` is returned exactly after an illegal sequence, and any other return is the number of characters stored. Proved for `src_len` below `size_t`'s maximum, so it does not cover the call `mbsrtowcs` makes with `usize::MAX` |
| Multibyte.Mbsnrtowcs | src/header/wchar/mod.rs:151-206 | the return is the loop's count (the corrected value after an illegal sequence); `*src` ends null after a null character and at the first byte not converted otherwise; `*ps` holds the loop's final state, restored after an incomplete character; a non-null destination holds the characters converted, then the null character if one was decoded, and is unchanged after them |
| Multibyte.Mbsrtowcs | src/header/wchar/mod.rs:210-217 | as Mbsnrtowcs with no bound on the source length |

## Left out

- Kernel behaviour is not modelled. Every system call (`dup`, `open`,
  `read`, `write`, `close`, `kill`, `sigaction`, `sigprocmask`, `getpid`)
  may fail with any code, and a read or write may move any count up to the
  length asked. The trace records what was asked and what came back.
- Kernel.Process.SysDup and Kernel.Process.SysOpen never succeed with
  `usize::MAX` or with a descriptor the layer already holds. The Redox
  system-call interface decodes the top of the `usize` range as error codes,
  and a live descriptor is not handed out twice. The proof that getitimer
  and setitimer close every timer they open relies on this. If `open` could
  succeed with `!0`, the bridged value would equal the failure value, and
  the code at src/platform/redox/signal.rs:23-25 and :68-70 would return -1
  without closing that descriptor.
- Multibyte.ReturnValueFlagsIllegal: requires `src_len` below `usize::MAX`.
  At that length a count of characters could collide with `(size_t)-1`.
  The property therefore says nothing about `mbsrtowcs`, which passes
  `usize::MAX`.
- Signal.Raise: `Sys::getpid` is defined outside the files modelled. It is
  taken as `e(syscall::getpid()) as pid_t`, and a successful kernel
  `getpid` is taken to report the process's own id.
- The `e` bridge is defined outside the files modelled. `Kernel.Process.E`
  gives it the behaviour described for it, not a copy of its code.
- The global `errno` is one field of the process. Its thread safety is
  concurrency and is outside the model.
- Signal handlers are copied as opaque words. The `mem::transmute` between
  a function pointer and the kernel's handler word is taken as a bit copy.
- Record sizes are the x86_64 ones: `termios` 60 bytes, `winsize` 8 and
  `pid_t` 4. The `termios` and `winsize` layouts are not part of this model.
- ITIMER_REAL is 0 and EINVAL is 22. These are the Redox values; the
  headers defining them are not part of this model.
- Raw-pointer validity is a precondition. Pointers the code dereferences
  without a null check (`*out` in getitimer, `*new` in setitimer, the
  ioctl record, `ps` in `mbsnrtowcs`) are non-null objects. Arrays passed to
  the wide-string functions contain the elements the loops read.
- Signal.NsecOf: wraps to 32 bits, as release builds of `tv_usec * 1000` do,
  so the round trip is proved only for microsecond counts up to 2147483 in
  magnitude. That covers every valid `tv_usec`. A debug build would panic
  on overflow instead; that is not modelled.
- WideString.Wcsncmp: returns the 32-bit wrapped difference, as a release
  build computes `wc1 - wc2`, so its sign orders the arguments only when the
  exact difference fits. A debug build would panic instead; that is not
  modelled.
- WideString.Wmemcmp: the same wrapped difference as Wcsncmp.
- WideString.Wcsncat: requires distinct arrays, because the C interface
  declares both pointers `restrict`.
- WideString.Wcscat: requires distinct arrays for the same reason.
- WideString.Wcscpy: the returned `ws1` pointer is not modelled, and the
  same holds for the other copy functions. The caller already has it.
- WideString.Wcschr: a returned pointer is an index into the array. The
  same holds for `wcsrchr` and `wmemchr`, and null is `None`. Index and
  length results are unbounded `nat`s, since an array index always fits
  in `size_t`.
- Multibyte.Mbsnrtowcs: `mbstate_t` is a type parameter with no fields, so
  `mbsinit` cannot tell an initial state from any other.
- Multibyte.Mbsnrtowcs: the `utf8` decoder behind `mbrtowc` is not part of
  this model. The loop is given any step that keeps the `mbrtowc` contract
  (`DecoderOk`).
- Multibyte.Mbsnrtowcs: the internal fallback state for a null `ps`
  (`static mut INTERNAL`) is unused, because the binding that selects it is
  shadowed. `ps` is therefore taken as non-null.
- Short ioctl transfers. A read or write of fewer bytes than the record
  yields 0, not an error, so `ioctl` returns 0. The model follows the code;
  a design where short transfers fail would differ.
- The FILE-based functions (`fgetwc`, `fputws` and the rest) are stdio I/O
  and are not modelled.
- The `unimplemented!()` stubs are not modelled.
- `wmemcpy` and `wmemmove` forward to the byte routines and are not
  modelled.
- `btowc`, `mbrtowc`, `mbrlen` and `wcrtomb` wrap the decoder that is not
  part of this model.

## Findings

| source | as written | input that shows it | evidently intended | confidence | as-written member | corrected member |
|---|---|---|---|---|---|---|
| src/header/wchar/mod.rs:175-177 | after `mbrtowc` reports an illegal sequence, `mbsnrtowcs` returns `1isize as usize`, which is 1 | a one-byte source whose byte is illegal returns 1, the same as a one-byte source that decodes to 'A' | return `(size_t)-1` so the caller can see the error | not executed | Multibyte.IllegalReadsAsOneChar | Multibyte.ReturnValueFlagsIllegal |
