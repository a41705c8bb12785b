/**
 * lib/lockf/file.rb: Lock::File over the binding the file requires, Lockf::FFI
 * (lib/lockf/ffi.rb), whose `lockf` returns true on success. The handle sends
 * @file.fileno, not the file, and its file and length are set once, by `initialize`.
 */
module LockfFileRb {
  import opened Ruby
  import opened Native
  import opened Policy
  import C = Constants
  import Fiddle
  import LockfFfi
  import Errno

  class File {
    const file: Value
    const len: Value

    /** Lock::File#initialize(file, len = 0): both stored as given. */
    constructor (file: Value, len: Value := Int(0))
      ensures this.file == file && this.len == len
    {
      this.file := file;
      this.len := len;
    }

    /**
     * The call `lockf(@file.fileno, cmd, @len)` hands to lockf(3) while Lockf::FFI's
     * @function is func, or what it raises first.
     */
    function Request(func: Option<LockfFfi.Function>, cmd: C.Command): (q: Result<Call>)
      ensures q.Return? ==> func.Some? && file.Obj? && file.obj.fileno.Some? && len.Int? &&
                            q.value == Call(file.obj.fileno.value, C.Code(cmd), len.i)
      ensures q.Raise? ==> q.error in {NoMethodError, TypeError, RangeError}
    {
      match Fileno(file)
      case Raise(e) => Raise(e)
      case Return(fd) => LockfFfi.Plan(func, fd, Int(C.Code(cmd)), len)
    }

    /** One evaluation of `lockf(@file.fileno, cmd, @len)`. */
    method Lockf(os: Os, ffi: LockfFfi.Ffi, cmd: C.Command) returns (r: Result<bool>)
      modifies os
      ensures var q, o := Request(ffi.func, cmd), os.lockfOutcome(|old(os.log)|);
        os.log == old(os.log) + (if q.Return? then [q.value] else []) &&
        r == (if q.Raise? then Raise(q.error) else Fiddle.Verdict(o)) &&
        os.errno == (if q.Return? then ErrnoAfter(old(os.errno), o) else old(os.errno)) &&
        os.lastError == if q.Return? then os.errno else old(os.lastError)
      ensures os.dlopens == old(os.dlopens)
    {
      var fd := Fileno(file);
      if fd.Raise? {
        return Raise(fd.error);
      }
      r := ffi.Lockf(os, fd.value, Int(C.Code(cmd)), len);
    }

    /** Lock::File#lock: F_LOCK, called again after EINTR until the third EINTR, which is raised. */
    method Lock(os: Os, ffi: LockfFfi.Ffi) returns (r: Result<bool>)
      modifies os
      ensures var q, from := Request(ffi.func, C.Lock), |old(os.log)|;
        var n := Calls(os.lockfOutcome, from, MaxAttempts);
        os.log == old(os.log) + (if q.Return? then Repeat(q.value, n) else []) &&
        r == (if q.Raise? then Raise(q.error) else Fiddle.Verdict(Final(os.lockfOutcome, from, MaxAttempts))) &&
        os.errno == (if q.Return? then ErrnoAfterCalls(old(os.errno), os.lockfOutcome, from, n) else old(os.errno)) &&
        os.lastError == if q.Return? then os.errno else old(os.lastError)
      ensures os.dlopens == old(os.dlopens)
    {
      ghost var q, from := Request(ffi.func, C.Lock), |os.log|;
      var attempts := 0;
      while true
        invariant 0 <= attempts < MaxAttempts
        invariant attempts > 0 ==> q.Return?
        invariant os.log == old(os.log) + (if q.Return? then Repeat(q.value, attempts) else [])
        invariant Calls(os.lockfOutcome, from, MaxAttempts) == CallsFrom(os.lockfOutcome, from, attempts, MaxAttempts)
        invariant attempts == 0 ==> os.errno == old(os.errno) && os.lastError == old(os.lastError)
        invariant attempts > 0 ==> os.errno == ErrnoAfterCalls(old(os.errno), os.lockfOutcome, from, attempts) &&
                                   os.lastError == os.errno
        invariant os.dlopens == old(os.dlopens)
        decreases MaxAttempts - attempts
      {
        r := Lockf(os, ffi, C.Lock);
        if r == Raise(SystemCallError(Errno.EINTR)) {
          RepeatSnoc(q.value, attempts);
          attempts := attempts + 1;
          if attempts == MaxAttempts {
            return;
          }
        } else {
          return;
        }
      }
    }

    /** Lock::File#lock_nonblock: one F_TLOCK call. */
    method LockNonblock(os: Os, ffi: LockfFfi.Ffi) returns (r: Result<bool>)
      modifies os
      ensures var q, o := Request(ffi.func, C.TryLock), os.lockfOutcome(|old(os.log)|);
        os.log == old(os.log) + (if q.Return? then [q.value] else []) &&
        r == (if q.Raise? then Raise(q.error) else Fiddle.Verdict(o)) &&
        os.errno == (if q.Return? then ErrnoAfter(old(os.errno), o) else old(os.errno)) &&
        os.lastError == if q.Return? then os.errno else old(os.lastError)
      ensures os.dlopens == old(os.dlopens)
    {
      r := Lockf(os, ffi, C.TryLock);
    }

    /** Lock::File#release: one F_ULOCK call. */
    method Release(os: Os, ffi: LockfFfi.Ffi) returns (r: Result<bool>)
      modifies os
      ensures var q, o := Request(ffi.func, C.Unlock), os.lockfOutcome(|old(os.log)|);
        os.log == old(os.log) + (if q.Return? then [q.value] else []) &&
        r == (if q.Raise? then Raise(q.error) else Fiddle.Verdict(o)) &&
        os.errno == (if q.Return? then ErrnoAfter(old(os.errno), o) else old(os.errno)) &&
        os.lastError == if q.Return? then os.errno else old(os.lastError)
      ensures os.dlopens == old(os.dlopens)
    {
      r := Lockf(os, ffi, C.Unlock);
    }

    /** Lock::File#locked?: one F_TEST call; true means another process holds the lock. */
    method Locked(os: Os, ffi: LockfFfi.Ffi) returns (r: Result<bool>)
      modifies os
      ensures var q, o := Request(ffi.func, C.Test), os.lockfOutcome(|old(os.log)|);
        os.log == old(os.log) + (if q.Return? then [q.value] else []) &&
        r == LockedOf(if q.Raise? then Raise(q.error) else Fiddle.Verdict(o)) &&
        os.errno == (if q.Return? then ErrnoAfter(old(os.errno), o) else old(os.errno)) &&
        os.lastError == if q.Return? then os.errno else old(os.lastError)
      ensures os.dlopens == old(os.dlopens)
    {
      var t := Lockf(os, ffi, C.Test);
      r := LockedOf(t);
    }
  }
}
