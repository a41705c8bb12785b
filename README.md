# lockf.rb, modelled in Dafny

lockf.rb wraps the POSIX advisory byte-range lock call `lockf(3)` for Ruby. This project
models the deterministic layer the library puts around that call, in three parts.

- **Lock handles.** There are three historical snapshots of the same class: `LockFile`
  (lib/lockf.rb), `Lock::File` (lib/lock/file.rb) and `Lock::File` (lib/lockf/file.rb). Each
  holds a file and a length. `lock` retries a call that failed with EINTR, at most three
  calls in all. `lock_nonblock` and `release` each make one call. `locked?` narrows the
  answer of one `F_TEST` call to a boolean.
- **Bindings.** The C extension (ext/lockf.rb/lockf.c) checks its argument types, clears
  `errno`, and returns 0 or raises the saved errno. The two Fiddle bindings
  (lib/lockf/ffi.rb, lib/lock/file/ffi.rb) resolve `#fileno`, return `true` or raise with
  `Fiddle.last_error`, and memoize their library handles.
- **Command codes.** `F_ULOCK`, `F_LOCK`, `F_TLOCK` and `F_TEST` (lib/lock/file/constants.rb)
  form a closed enumeration with codes 0..3.

The operating system is an oracle. `Native.Os` holds the outcome of the process's n-th
`lockf(3)` call (`Ok` or `Err(errno)`), and the result of its n-th `dlopen(3)`. It logs every
`lockf(fd, cmd, len)` call that is issued, and it keeps the global `errno` and Fiddle's
`last_error`. Every handle method is stated against this state. A method says which calls
it appended to the log, what it returned or raised, and what became of `errno`. The
retry-loop methods are proved against `Policy.Calls` and `Policy.Final`, pure functions of
the oracle. The lemmas in `Policy` then characterise those functions.

Ruby values are `Ruby.Value` (`Int`, `Str`, `Nil`, or a file-like `Obj`). Exceptions are
`Ruby.Exception`, and a Ruby call yields `Result<T> = Return(value) | Raise(error)`.
Errno values use Linux numbering, and there `Errno::EWOULDBLOCK` is `Errno::EAGAIN`. Fixnums
are those of a 64-bit CRuby.

Modules: `Errno` and `Ruby` (ruby.dfy), `Native` (native.dfy), `Constants` (constants.dfy),
`Policy` (policy.dfy), `CExt` (cext.dfy), `Fiddle` (fiddle.dfy), `LockfFfi` (lockf_ffi.dfy),
`LockFileFfi` (lock_file_ffi.dfy), `LockfRb` (lockf_rb.dfy), `LockFileRb` (lock_file_rb.dfy),
`LockfFileRb` (lockf_file_rb.dfy).

## Where the code and the design disagree (the model follows the code)

- Link failures. The design says a failed resolution is cached and every later call fails
  fast with a LinkError. In lib/lockf/ffi.rb only a failed `dlopen` becomes `LinkError`, and
  only while the module body loads. A missing `lockf` symbol raises `Fiddle::DLError`,
  because `@libc["lockf"]` sits outside the `rescue`. lib/lock/file/ffi.rb has no LinkError
  at all: `@libc ||=` leaves `@libc` nil after a failed `dlopen`, so the next call tries
  `dlopen` again.
- Where the memo lives. lib/lock/file.rb mixes in `Lock::File::FFI`, so the `@libc` that
  `#libc` memoizes is an instance variable of each handle, not process state.
  `LockFileRb.File.ffi` models it per handle.
- Probe direction. The design names a probe `lockable()` that is true when the range is
  free. The code's `locked?` is true when another process holds the lock (EACCES/EAGAIN) and
  false on success. The code also has no reentrant `with_lock` and no held-state.
- Which binding lib/lockf/file.rb uses. It includes `Lock::FFI`, which no shown file
  defines, and requires `ffi`, i.e. lib/lockf/ffi.rb (`Lockf::FFI`). It is modelled over
  `Lockf::FFI`, so it returns `true` on success even though its doc comments say Integer.
  Two facts point the other way. The unqualified `F_LOCK` at lib/lockf/file.rb:37 exists on
  `Lock::File` only through the C extension's `Init_lockf` (ext/lockf.rb/lockf.c:33), not
  through `Lockf::FFI`. And lib/lockf/file/ffi.rb:4-29 documents a `Lock::File::FFI.lockf`
  loaded from `lockf/lockf.rb.so` that returns 0.
- Success values. `LockFile` (lib/lockf.rb) calls the C extension's `lockf` and returns 0
  (test/lock_file_locked_test.rb:17). The Fiddle path returns `true`
  (test/lock_file_test.rb:21). Each file is modelled as written. `Fiddle.AgreesWithCExt`
  proves the two paths fail alike. The shown `Init_lockf` registers `lockf` on
  `Lock::File::FFI`, not on `LockFile`, and the handle is modelled as calling that function.

## Model

| member | source | states |
|---|---|---|
| `Constants.Code` | lib/lock/file/constants.rb:10-13 | every command's ABI code lies in 0..3 |
| `Constants.FromCode` | lib/lock/file/constants.rb:9-14 | an integer names a command exactly when it is in 0..3, and then that command's code is the integer |
| `Constants.CodeRoundTrip` | lib/lock/file/constants.rb:10-13 | decoding a command's code gives the command back; no two commands share a code |
| `Constants.CodesCoverRange` | lib/lock/file/constants.rb:10-13 | every integer in 0..3 is some command's code, so the table is a bijection onto 0..3 |
| `Policy.CallsFrom` | lib/lockf.rb:89-95 | after `tries` interrupted calls, a blocking lock that gives up after `limit` calls makes more than `tries` calls and never more than `limit`; the handles use `limit` = 3 (`Policy.MaxAttempts`) |
| `Policy.CallsFromIff` | lib/lockf.rb:90-94 | n calls follow `tries` interrupted ones iff every call before the n-th was EINTR and the n-th was not EINTR or was the last allowed (both directions, for every limit) |
| `Policy.Calls` | lib/lockf.rb:90-94 | the blocking lock makes between 1 and `limit` calls; `Policy.Final`, the outcome of the last of them, is what `lock` returns or raises (`raise(ex)` re-raises the third EINTR) |
| `Policy.CallsIff` | lib/lockf.rb:90-94 | `lock` makes exactly n calls iff 1 <= n <= limit, calls 1..n-1 failed with EINTR, and call n was not EINTR unless n = limit |
| `Policy.RaisesInterruptIff` | lib/lockf.rb:92-94 | `lock` ends with EINTR iff all `limit` calls (three, for the handles) failed with EINTR |
| `Policy.EarlierCallsInterrupted` | lib/lockf.rb:92-94 | every call `lock` makes before its last one failed with EINTR; in particular this holds of a successful `lock` |
| `Policy.StopsAtFirstUninterrupted` | lib/lockf.rb:91-92 | the first call that is not EINTR (a success or any other errno) is the last, and its outcome is reported |
| `Policy.LockedOf` | lib/lockf.rb:120-125 | `locked?` is false iff the F_TEST call returned, true iff it raised EACCES or EAGAIN, and any other exception propagates unchanged |
| `Ruby.ToCInt` | ext/lockf.rb/lockf.c:15 | NUM2INT gives back an Integer within C int range and raises RangeError outside it, TypeError for a non-Integer |
| `Ruby.Fileno` | lib/lockf.rb:91 | `@file.fileno` gives the object's descriptor, and raises NoMethodError when the object has no `#fileno` |
| `Native.Os.Lockf` | ext/lockf.rb/lockf.c:15 | lockf(3) appends its call to the log, answers 0 or -1 from the oracle, and sets errno only on failure |
| `Native.Os.Dlopen` | lib/lock/file/ffi.rb:40 | dlopen answers from its oracle and counts the attempt |
| `CExt.Args` | ext/lockf.rb/lockf.c:11-15 | the native call receives the three arguments unchanged; a non-fixnum raises TypeError and an out-of-int fixnum raises RangeError, with no call |
| `CExt.Classify` | ext/lockf.rb/lockf.c:16-22 | the result is returned (0) exactly on success; a failure raises SystemCallError with the call's errno |
| `CExt.LockfLock` | ext/lockf.rb/lockf.c:6-23 | leaves the log unchanged when the type checks or NUM2INT fail, else appends exactly one call; errno is 0 afterwards once the type checks pass, and on failure the saved errno is raised |
| `CExt.CommandConstants` | ext/lockf.rb/lockf.c:33-36 | Init_lockf defines exactly the names F_LOCK, F_TLOCK, F_ULOCK and F_TEST, each with a valid command code |
| `CExt.CommandConstantsDecode` | ext/lockf.rb/lockf.c:33-36 | each registered constant decodes to the command its name says |
| `CExt.Runtime.InitLockf` | ext/lockf.rb/lockf.c:25-38 | defines module Lock; raises NameError when Lock was new (so has no File) or Lock::File or Lock::File::FFI is missing; otherwise adds the four constants and `lockf` with arity 3, changing nothing else |
| `Fiddle.ResolveFileno` | lib/lockf/ffi.rb:46 | an object answering `#fileno` is replaced by its descriptor; anything else is passed unchanged |
| `Fiddle.Args` | lib/lockf/ffi.rb:29-33 | the three INT arguments reach lockf(3) unchanged when all convert; otherwise TypeError or RangeError, with no call |
| `Fiddle.Invoke` | lib/lockf/ffi.rb:47 | at most one native call: exactly one when the three arguments convert, none when a conversion raises first; when a call is made, `Fiddle.last_error` equals the errno it left, and otherwise `last_error` is unchanged |
| `Fiddle.Verdict` | lib/lock/file/ffi.rb:26-27 | the binding returns `true` exactly when the native call succeeded, else raises SystemCallError with that call's errno |
| `Fiddle.AgreesWithCExt` | lib/lockf/ffi.rb:47-48 | the Fiddle and C paths fail on the same outcomes with the same exception, succeed together (true against 0), and give the same `locked?` answer |
| `Ruby.Ancestors` | lib/lockf/ffi.rb:11-15 | every exception's class chain has at least three classes and ends in StandardError < Exception, so `rescue => ex` (lib/lockf/ffi.rb:25) catches each; the LinkError < Error < RuntimeError links are stated by `LockfFfi.LinkErrorIsRuntimeError` |
| `LockfFfi.LinkErrorIsRuntimeError` | lib/lockf/ffi.rb:11-15 | LinkError's superclass is Lockf::FFI::Error, whose superclass is RuntimeError |
| `LockfFfi.Plan` | lib/lockf/ffi.rb:45-53 | with no `@function`, `lockf` raises NoMethodError (nil.call); otherwise it calls with the resolved descriptor, command and size |
| `LockfFfi.Ffi.Load` | lib/lockf/ffi.rb:17-33 | `@libc` and `@function` are each set at most once and kept by later loads; dlopen is tried only while `@libc` is undefined; a dlopen failure raises LinkError, and a missing symbol raises DLError |
| `LockfFfi.Ffi.Lockf` | lib/lockf/ffi.rb:45-49 | at most one native call with the resolved descriptor: exactly one once `@function` exists and the arguments convert, none when `nil.call` or a conversion raises first; no retry; `true` iff it succeeded, else SystemCallError carrying last_error; `size` defaults to 0 |
| `LockFileFfi.Memo` | lib/lock/file/ffi.rb:33 | a memoized handle is kept; dlopen's result is used only when there is none |
| `LockFileFfi.Plan` | lib/lock/file/ffi.rb:20-28 | without a library exporting `lockf` the call raises DLError; otherwise the resolved descriptor, command and size are passed |
| `LockFileFfi.Ffi.Libc` | lib/lock/file/ffi.rb:32-42 | computed on first use and returned unchanged afterwards, with no further dlopen; a failed dlopen raises and is tried again next time |
| `LockFileFfi.Ffi.Lockf` | lib/lock/file/ffi.rb:20-28 | at most one native call per invocation: exactly one once `libc` and `libc["lockf"]` resolve and the arguments convert, none when DLError or a conversion raises first; `true` iff that call succeeded, else SystemCallError with last_error; `size` defaults to 0 |
| `LockfRb.LockFile.constructor` | lib/lockf.rb:77-80 | a String is opened with mode "r+", anything else is stored as given; `len` defaults to 0; both fields are constant |
| `LockfRb.LockFile.Request` | lib/lockf.rb:91 | every call the handle makes is lockf(its own fileno, the command's code, its own len) |
| `LockfRb.LockFile.Lockf` | lib/lockf.rb:104-105 | one evaluation of `LockFile.lockf(@file.fileno, cmd, @len)`: at most one call, result as the C extension classifies it |
| `LockfRb.LockFile.Lock` | lib/lockf.rb:89-95 | appends `Policy.Calls` copies of the F_LOCK call, returns 0 or raises what `Policy.Final` reports; an exception before the call propagates with no call |
| `LockfRb.LockFile.LockNonblock` | lib/lockf.rb:104-106 | at most one F_TLOCK call, never retried: exactly one once `@file.fileno` and the C type checks pass, none when they raise first; the result is 0 or the call's SystemCallError |
| `LockfRb.LockFile.Release` | lib/lockf.rb:113-115 | at most one F_ULOCK call, never retried: exactly one once `@file.fileno` and the C type checks pass, none when they raise first |
| `LockfRb.LockFile.Locked` | lib/lockf.rb:120-125 | at most one F_TEST call (exactly one once `@file.fileno` and the C type checks pass, none when they raise first), its result narrowed by `Policy.LockedOf` |
| `LockFileRb.File.constructor` | lib/lock/file.rb:42-45 | `file` and `size` stored unchanged, `size` defaults to 0; the handle's FFI memo starts empty |
| `LockFileRb.File.Request` | lib/lock/file.rb:57 | the file object itself goes to `lockf`, which calls with its resolved fileno, the command's code and `@size` |
| `LockFileRb.File.Lockf` | lib/lock/file.rb:72 | one evaluation of `lockf(@file, cmd, @size)`: at most one call, memoizing libc on the handle |
| `LockFileRb.File.Lock` | lib/lock/file.rb:55-61 | at most three F_LOCK calls, retrying only on EINTR, the third EINTR raised; returns `true` on success |
| `LockFileRb.File.LockNonblock` | lib/lock/file.rb:71-73 | at most one F_TLOCK call, never retried: exactly one once libc, its `lockf` symbol and the arguments resolve, none when they raise first; a would-block EAGAIN propagates unchanged |
| `LockFileRb.File.Release` | lib/lock/file.rb:83-85 | at most one F_ULOCK call (exactly one once libc, its `lockf` symbol and the arguments resolve, none when they raise first); `true` on success |
| `LockFileRb.File.Locked` | lib/lock/file.rb:90-95 | at most one F_TEST call (exactly one once libc, its `lockf` symbol and the arguments resolve, none when they raise first), narrowed by `Policy.LockedOf` |
| `LockFileRb.File.Close` | lib/lock/file.rb:105-108 | closes the file iff it responds to `#close`; otherwise nothing changes |
| `LockfFileRb.File.constructor` | lib/lockf/file.rb:23-26 | `file` and `len` stored as given, `len` defaults to 0, never reassigned |
| `LockfFileRb.File.Request` | lib/lockf/file.rb:37 | every call is lockf(`@file.fileno`, the command's code, `@len`); a missing `#fileno` or `@function` raises NoMethodError |
| `LockfFileRb.File.Lockf` | lib/lockf/file.rb:51 | one evaluation of `lockf(@file.fileno, cmd, @len)`: at most one call |
| `LockfFileRb.File.Lock` | lib/lockf/file.rb:35-41 | at most three F_LOCK calls, the third EINTR raised, any other errno propagated at once |
| `LockfFileRb.File.LockNonblock` | lib/lockf/file.rb:50-52 | at most one F_TLOCK call, no retry: exactly one once `@file.fileno`, `@function` and the arguments resolve, none when they raise first |
| `LockfFileRb.File.Release` | lib/lockf/file.rb:59-61 | at most one F_ULOCK call: exactly one once `@file.fileno`, `@function` and the arguments resolve, none when they raise first |
| `LockfFileRb.File.Locked` | lib/lockf/file.rb:66-71 | at most one F_TEST call (exactly one once `@file.fileno`, `@function` and the arguments resolve, none when they raise first), narrowed by `Policy.LockedOf` |

## Left out

- Operating-system lock semantics: exclusion between processes, blocking until release,
  what `len` covers, and fork. These are the OS's business. `lockf(3)` is only an oracle
  of outcomes, and the fork-based tests are not modelled.
- How the C library is found and linked: the `Dir[*globs]` search, `Fiddle.dlopen` and
  `Fiddle::Function.new`. This is foreign code and file-system probing. `dlopen` is an
  oracle, and a library either exports `lockf` or does not.
- Opening files. `File.open(path, "r+")` is a parameter of `LockfRb.LockFile.constructor`
  that always yields a file, so its errors (ENOENT, EACCES) are not modelled.
  `temporary_file` / `from_temporary_file` (Tempfile plus unlink) are not modelled either.
- Ruby IO details: IOError from `#fileno` on a closed stream, a `#fileno` that answers a
  non-Integer, `#to_int` conversions and Float truncation in NUM2INT and in Fiddle's
  argument conversion.
- Parts of Ruby's runtime: `rb_const_get`'s fallback lookup through `Object` when
  `Lock::File` is missing, exception messages and `cause:`, and the thread-local nature of
  `Fiddle.last_error`.
- Threads and signals. Calls are sequential, and a signal shows up only as an EINTR outcome.
- 32-bit platforms, where the fixnum range is smaller.
- lib/lockf/file/ffi.rb, which holds only documentation. The demos under share/ and
  readme_examples/ and the Rakefile are not modelled; they call `obtain`,
  `obtain_nonblock`, `Lockf.unlinked_file` and `Lock::FFI::F_LOCK`, which no library file
  defines.
- A reentrant `with_lock` and a `lockable()` probe. No library file implements either.
