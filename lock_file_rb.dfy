/**
 * lib/lock/file.rb: Lock::File, a lock handle that mixes in Lock::File::FFI (lib/lock/file/ffi.rb),
 * whose `lockf` returns true on success and keeps its @libc memo on the handle itself.
 */
module LockFileRb {
  import opened Ruby
  import opened Native
  import opened Policy
  import C = Constants
  import Fiddle
  import LockFileFfi
  import Errno

  class File {
    const file: Value
    const size: Value
    /** The @libc that the included FFI module memoizes on this handle. */
    const ffi: LockFileFfi.Ffi

    /** Lock::File#initialize(file, size = 0): both stored as given. */
    constructor (file: Value, size: Value := Int(0))
      ensures this.file == file && this.size == size
      ensures fresh(ffi) && ffi.libc == None
    {
      this.file := file;
      this.size := size;
      ffi := new LockFileFfi.Ffi();
    }

    /**
     * The call `lockf(@file, cmd, @size)` hands to lockf(3) once @libc is lib, or what it
     * raises first. The file object itself is passed; the binding resolves its #fileno.
     */
    function Request(lib: Option<Library>, cmd: C.Command): (q: Result<Call>)
      ensures q.Return? ==> Fiddle.ResolveFileno(file).Int? && size.Int? &&
                            q.value == Call(Fiddle.ResolveFileno(file).i, C.Code(cmd), size.i)
      ensures q.Return? ==> lib.Some? && lib.value.exportsLockf
      ensures q.Raise? ==> q.error in {DLError, TypeError, RangeError}
    {
      LockFileFfi.Plan(lib, file, Int(C.Code(cmd)), size)
    }

    /** One evaluation of `lockf(@file, cmd, @size)`. */
    method Lockf(os: Os, cmd: C.Command) returns (r: Result<bool>)
      modifies ffi, os
      ensures ffi.libc == LockFileFfi.Memo(old(ffi.libc), os.dlopenOutcome(old(os.dlopens)))
      ensures os.dlopens == old(os.dlopens) + (if old(ffi.libc).Some? then 0 else 1)
      ensures var q, o := Request(ffi.libc, cmd), os.lockfOutcome(|old(os.log)|);
        os.log == old(os.log) + (if q.Return? then [q.value] else []) &&
        r == (if q.Raise? then Raise(q.error) else Fiddle.Verdict(o)) &&
        os.errno == (if q.Return? then ErrnoAfter(old(os.errno), o) else old(os.errno)) &&
        os.lastError == if q.Return? then os.errno else old(os.lastError)
    {
      r := ffi.Lockf(os, file, Int(C.Code(cmd)), size);
    }

    /** Lock::File#lock: F_LOCK, called again after EINTR until the third EINTR, which is raised. */
    method Lock(os: Os) returns (r: Result<bool>)
      modifies ffi, os
      ensures ffi.libc == LockFileFfi.Memo(old(ffi.libc), os.dlopenOutcome(old(os.dlopens)))
      ensures os.dlopens == old(os.dlopens) + (if old(ffi.libc).Some? then 0 else 1)
      ensures var q, from := Request(ffi.libc, C.Lock), |old(os.log)|;
        var n := Calls(os.lockfOutcome, from, MaxAttempts);
        os.log == old(os.log) + (if q.Return? then Repeat(q.value, n) else []) &&
        r == (if q.Raise? then Raise(q.error) else Fiddle.Verdict(Final(os.lockfOutcome, from, MaxAttempts))) &&
        os.errno == (if q.Return? then ErrnoAfterCalls(old(os.errno), os.lockfOutcome, from, n) else old(os.errno)) &&
        os.lastError == if q.Return? then os.errno else old(os.lastError)
    {
      ghost var lib := LockFileFfi.Memo(ffi.libc, os.dlopenOutcome(os.dlopens));
      ghost var q, from := Request(lib, C.Lock), |os.log|;
      var tries := 0;
      while true
        invariant 0 <= tries < MaxAttempts
        invariant LockFileFfi.Memo(ffi.libc, os.dlopenOutcome(os.dlopens)) == lib
        invariant tries == 0 ==> ffi.libc == old(ffi.libc)
        invariant tries > 0 ==> q.Return? && ffi.libc == lib
        invariant os.dlopens == old(os.dlopens) + (if tries > 0 && old(ffi.libc).None? then 1 else 0)
        invariant os.log == old(os.log) + (if q.Return? then Repeat(q.value, tries) else [])
        invariant Calls(os.lockfOutcome, from, MaxAttempts) == CallsFrom(os.lockfOutcome, from, tries, MaxAttempts)
        invariant tries == 0 ==> os.errno == old(os.errno) && os.lastError == old(os.lastError)
        invariant tries > 0 ==> os.errno == ErrnoAfterCalls(old(os.errno), os.lockfOutcome, from, tries) &&
                                os.lastError == os.errno
        decreases MaxAttempts - tries
      {
        r := Lockf(os, C.Lock);
        if r == Raise(SystemCallError(Errno.EINTR)) {
          RepeatSnoc(q.value, tries);
          tries := tries + 1;
          if tries == MaxAttempts {
            return;
          }
        } else {
          return;
        }
      }
    }

    /** Lock::File#lock_nonblock: one F_TLOCK call; EAGAIN (Errno::EWOULDBLOCK) propagates as raised. */
    method LockNonblock(os: Os) returns (r: Result<bool>)
      modifies ffi, os
      ensures ffi.libc == LockFileFfi.Memo(old(ffi.libc), os.dlopenOutcome(old(os.dlopens)))
      ensures os.dlopens == old(os.dlopens) + (if old(ffi.libc).Some? then 0 else 1)
      ensures var q, o := Request(ffi.libc, C.TryLock), os.lockfOutcome(|old(os.log)|);
        os.log == old(os.log) + (if q.Return? then [q.value] else []) &&
        r == (if q.Raise? then Raise(q.error) else Fiddle.Verdict(o)) &&
        os.errno == (if q.Return? then ErrnoAfter(old(os.errno), o) else old(os.errno)) &&
        os.lastError == if q.Return? then os.errno else old(os.lastError)
    {
      r := Lockf(os, C.TryLock);
    }

    /** Lock::File#release: one F_ULOCK call. */
    method Release(os: Os) returns (r: Result<bool>)
      modifies ffi, os
      ensures ffi.libc == LockFileFfi.Memo(old(ffi.libc), os.dlopenOutcome(old(os.dlopens)))
      ensures os.dlopens == old(os.dlopens) + (if old(ffi.libc).Some? then 0 else 1)
      ensures var q, o := Request(ffi.libc, C.Unlock), os.lockfOutcome(|old(os.log)|);
        os.log == old(os.log) + (if q.Return? then [q.value] else []) &&
        r == (if q.Raise? then Raise(q.error) else Fiddle.Verdict(o)) &&
        os.errno == (if q.Return? then ErrnoAfter(old(os.errno), o) else old(os.errno)) &&
        os.lastError == if q.Return? then os.errno else old(os.lastError)
    {
      r := Lockf(os, C.Unlock);
    }

    /** Lock::File#locked?: one F_TEST call; true means another process holds the lock. */
    method Locked(os: Os) returns (r: Result<bool>)
      modifies ffi, os
      ensures ffi.libc == LockFileFfi.Memo(old(ffi.libc), os.dlopenOutcome(old(os.dlopens)))
      ensures os.dlopens == old(os.dlopens) + (if old(ffi.libc).Some? then 0 else 1)
      ensures var q, o := Request(ffi.libc, C.Test), os.lockfOutcome(|old(os.log)|);
        os.log == old(os.log) + (if q.Return? then [q.value] else []) &&
        r == LockedOf(if q.Raise? then Raise(q.error) else Fiddle.Verdict(o)) &&
        os.errno == (if q.Return? then ErrnoAfter(old(os.errno), o) else old(os.errno)) &&
        os.lastError == if q.Return? then os.errno else old(os.lastError)
    {
      var t := Lockf(os, C.Test);
      r := LockedOf(t);
    }

    /** Lock::File#close: closes the file when it responds to #close, and otherwise does nothing. */
    method Close()
      modifies if file.Obj? then {file.obj} else {}
      ensures file.Obj? ==> file.obj.closed == (old(file.obj.closed) || file.obj.closable)
    {
      if file.Obj? && file.obj.closable {
        file.obj.Close();
      }
    }
  }
}
