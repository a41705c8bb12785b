/**
 * lib/lockf.rb: LockFile, a lock handle over the C extension's `LockFile.lockf`, which
 * returns 0 on success. The handle's file and length are set once, by `initialize`.
 */
module LockfRb {
  import opened Ruby
  import opened Native
  import opened Policy
  import C = Constants
  import CExt
  import Errno

  class LockFile {
    const file: Value
    const len: Value

    /**
     * LockFile#initialize(file, len = 0). A String is a path, opened with File.open(path, "r+");
     * that is file-system I/O, so `open` supplies the File it gives.
     */
    constructor (open: (string, string) -> FileObject, file: Value, len: Value := Int(0))
      ensures this.file == (if file.Str? then Obj(open(file.s, "r+")) else file)
      ensures this.len == len
    {
      this.file := if file.Str? then Obj(open(file.s, "r+")) else file;
      this.len := len;
    }

    /** The call `LockFile.lockf(@file.fileno, cmd, @len)` hands to lockf(3), or what it raises first. */
    function Request(cmd: C.Command): (q: Result<Call>)
      ensures q.Return? ==> file.Obj? && file.obj.fileno.Some? && len.Int? &&
                            q.value == Call(file.obj.fileno.value, C.Code(cmd), len.i)
      ensures q.Raise? ==> q.error in {NoMethodError, TypeError, RangeError}
    {
      match Fileno(file)
      case Raise(e) => Raise(e)
      case Return(fd) => CExt.Args(fd, Int(C.Code(cmd)), len)
    }

    /** Whether that expression gets past lockf_lock's type checks, after which errno is cleared. */
    predicate ClearsErrno()
    {
      Fileno(file).Return? && IsFixnum(Fileno(file).value) && IsFixnum(len)
    }

    /** One evaluation of `LockFile.lockf(@file.fileno, cmd, @len)`. */
    method Lockf(os: Os, cmd: C.Command) returns (r: Result<int>)
      modifies os
      ensures var q := Request(cmd);
        os.log == old(os.log) + (if q.Return? then [q.value] else []) &&
        r == if q.Raise? then Raise(q.error) else CExt.Classify(os.lockfOutcome(|old(os.log)|))
      ensures os.errno == if ClearsErrno() then 0 else old(os.errno)
      ensures os.lastError == old(os.lastError) && os.dlopens == old(os.dlopens)
    {
      var fd := Fileno(file);
      if fd.Raise? {
        return Raise(fd.error);
      }
      r := CExt.LockfLock(os, fd.value, Int(C.Code(cmd)), len);
    }

    /** LockFile#lock: F_LOCK, called again after EINTR until the third EINTR, which is raised. */
    method Lock(os: Os) returns (r: Result<int>)
      modifies os
      ensures var q, from := Request(C.Lock), |old(os.log)|;
        os.log == old(os.log) + (if q.Return? then Repeat(q.value, Calls(os.lockfOutcome, from, MaxAttempts)) else []) &&
        r == if q.Raise? then Raise(q.error) else CExt.Classify(Final(os.lockfOutcome, from, MaxAttempts))
      ensures os.errno == if ClearsErrno() then 0 else old(os.errno)
      ensures os.lastError == old(os.lastError) && os.dlopens == old(os.dlopens)
    {
      ghost var q, from := Request(C.Lock), |os.log|;
      var attempts := 0;
      while true
        invariant 0 <= attempts < MaxAttempts
        invariant attempts > 0 ==> q.Return?
        invariant os.log == old(os.log) + (if q.Return? then Repeat(q.value, attempts) else [])
        invariant Calls(os.lockfOutcome, from, MaxAttempts) == CallsFrom(os.lockfOutcome, from, attempts, MaxAttempts)
        invariant os.errno == if attempts > 0 then 0 else old(os.errno)
        invariant os.lastError == old(os.lastError) && os.dlopens == old(os.dlopens)
        decreases MaxAttempts - attempts
      {
        r := Lockf(os, C.Lock);
        if r == Raise(SystemCallError(Errno.EINTR)) {
          RepeatSnoc(q.value, attempts);
          attempts := attempts + 1;
          if attempts == MaxAttempts {
            return;
          }
        } else {
          return;
        }
      }
    }

    /** LockFile#lock_nonblock: one F_TLOCK call. */
    method LockNonblock(os: Os) returns (r: Result<int>)
      modifies os
      ensures var q := Request(C.TryLock);
        os.log == old(os.log) + (if q.Return? then [q.value] else []) &&
        r == if q.Raise? then Raise(q.error) else CExt.Classify(os.lockfOutcome(|old(os.log)|))
      ensures os.errno == if ClearsErrno() then 0 else old(os.errno)
      ensures os.lastError == old(os.lastError) && os.dlopens == old(os.dlopens)
    {
      r := Lockf(os, C.TryLock);
    }

    /** LockFile#release: one F_ULOCK call. */
    method Release(os: Os) returns (r: Result<int>)
      modifies os
      ensures var q := Request(C.Unlock);
        os.log == old(os.log) + (if q.Return? then [q.value] else []) &&
        r == if q.Raise? then Raise(q.error) else CExt.Classify(os.lockfOutcome(|old(os.log)|))
      ensures os.errno == if ClearsErrno() then 0 else old(os.errno)
      ensures os.lastError == old(os.lastError) && os.dlopens == old(os.dlopens)
    {
      r := Lockf(os, C.Unlock);
    }

    /** LockFile#locked?: one F_TEST call; true means another process holds the lock. */
    method Locked(os: Os) returns (r: Result<bool>)
      modifies os
      ensures var q := Request(C.Test);
        os.log == old(os.log) + (if q.Return? then [q.value] else []) &&
        r == LockedOf(if q.Raise? then Raise(q.error) else CExt.Classify(os.lockfOutcome(|old(os.log)|)))
      ensures os.errno == if ClearsErrno() then 0 else old(os.errno)
      ensures os.lastError == old(os.lastError) && os.dlopens == old(os.dlopens)
    {
      var t := Lockf(os, C.Test);
      r := LockedOf(t);
    }
  }
}
