/**
 * lib/lock/file/ffi.rb: Lock::File::FFI, a Fiddle binding that opens the C library on first
 * use (`@libc ||= ...`) and builds a fresh Fiddle::Function on every call. The module is
 * mixed into Lock::File, so @libc lives on whichever object receives `lockf`.
 */
module LockFileFfi {
  import opened Ruby
  import opened Native
  import Fiddle

  /** `@libc ||= Fiddle.dlopen(...)`: the memo, or what dlopen gives when there is none yet. */
  function Memo(libc: Option<Library>, found: Option<Library>): (m: Option<Library>)
    ensures libc.Some? ==> m == libc
    ensures libc.None? ==> m == found
  {
    if libc.Some? then libc else found
  }

  /** The call `lockf` hands to lockf(3) once @libc is lib, or what it raises first. */
  function Plan(lib: Option<Library>, fd: Value, fn: Value, size: Value): (r: Result<Call>)
    ensures lib.None? || !lib.value.exportsLockf ==> r == Raise(DLError)
    ensures lib.Some? && lib.value.exportsLockf ==> r == Fiddle.Args(Fiddle.ResolveFileno(fd), fn, size)
  {
    if lib.None? then Raise(DLError)                  // Fiddle.dlopen raised
    else if !lib.value.exportsLockf then Raise(DLError)  // libc["lockf"] raised
    else Fiddle.Args(Fiddle.ResolveFileno(fd), fn, size)
  }

  /** The state the FFI mixin keeps on its receiver: @libc. None stands for nil. */
  class Ffi {
    var libc: Option<Library>

    constructor ()
      ensures libc == None
    {
      libc := None;
    }

    /** Lock::File::FFI#libc: a failed dlopen leaves @libc nil, so the next call tries again. */
    method Libc(os: Os) returns (r: Result<Library>)
      modifies this, os
      ensures libc == Memo(old(libc), os.dlopenOutcome(old(os.dlopens)))
      ensures os.dlopens == old(os.dlopens) + (if old(libc).Some? then 0 else 1)
      ensures r == if libc.Some? then Return(libc.value) else Raise(DLError)
      ensures os.log == old(os.log) && os.errno == old(os.errno) && os.lastError == old(os.lastError)
    {
      if libc.None? {
        libc := os.Dlopen();
      }
      r := if libc.Some? then Return(libc.value) else Raise(DLError);
    }

    /** Lock::File::FFI#lockf(fd, function, size = 0) */
    method Lockf(os: Os, fd: Value, fn: Value, size: Value := Int(0)) returns (r: Result<bool>)
      modifies this, os
      ensures libc == Memo(old(libc), os.dlopenOutcome(old(os.dlopens)))
      ensures os.dlopens == old(os.dlopens) + (if old(libc).Some? then 0 else 1)
      ensures var p := Plan(libc, fd, fn, size);
        (p.Raise? ==> r == Raise(p.error) && os.log == old(os.log) &&
                      os.errno == old(os.errno) && os.lastError == old(os.lastError)) &&
        (p.Return? ==> os.log == old(os.log) + [p.value] &&
                       r == Fiddle.Verdict(os.lockfOutcome(|old(os.log)|)) &&
                       os.errno == ErrnoAfter(old(os.errno), os.lockfOutcome(|old(os.log)|)) &&
                       os.lastError == os.errno)
    {
      var fileno := Fiddle.ResolveFileno(fd);
      var lib := Libc(os);
      if lib.Raise? {
        return Raise(lib.error);
      }
      if !lib.value.exportsLockf {
        return Raise(DLError);
      }
      var status := Fiddle.Invoke(os, fileno, fn, size);
      match status
      case Raise(e) => r := Raise(e);
      case Return(s) => r := if s == 0 then Return(true) else Raise(SystemCallError(os.lastError));
    }
  }
}
