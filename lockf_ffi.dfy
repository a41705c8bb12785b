/**
 * lib/lockf/ffi.rb: Lockf::FFI, a Fiddle binding whose library handle (@libc) and function
 * handle (@function) are module state, set while the module body loads and kept afterwards.
 */
module LockfFfi {
  import opened Ruby
  import opened Native
  import Fiddle

  /** Fiddle::Function.new(@libc["lockf"], [INT, INT, INT], INT): lockf(3) as found in a library. */
  datatype Function = Function(library: Library)

  /** Lockf::FFI::LinkError < Lockf::FFI::Error < RuntimeError, so `rescue RuntimeError` catches a link failure. */
  lemma LinkErrorIsRuntimeError()
    ensures Ancestors(LinkError)[..3] == ["Lockf::FFI::LinkError", "Lockf::FFI::Error", "RuntimeError"]
    ensures IsA(LinkError, "Lockf::FFI::Error") && IsA(LinkError, "RuntimeError")
  {
  }

  /** The call `lockf` hands to lockf(3) for this @function, or what it raises first. */
  function Plan(func: Option<Function>, fd: Value, fn: Value, size: Value): (r: Result<Call>)
    ensures func.None? ==> r == Raise(NoMethodError)
    ensures func.Some? ==> r == Fiddle.Args(Fiddle.ResolveFileno(fd), fn, size)
  {
    if func.None? then Raise(NoMethodError)  // `nil.call`
    else Fiddle.Args(Fiddle.ResolveFileno(fd), fn, size)
  }

  /** The module state of Lockf::FFI. None stands for an instance variable not yet defined. */
  class Ffi {
    var libc: Option<Library>
    var func: Option<Function>

    ghost predicate Valid()
      reads this
    {
      func.Some? ==> libc == Some(func.value.library) && func.value.library.exportsLockf
    }

    constructor ()
      ensures Valid() && libc == None && func == None
    {
      libc := None;
      func := None;
    }

    /** Running the module body: resolve @libc, then @function, each only if not yet defined. */
    method Load(os: Os) returns (r: Result<()>)
      requires Valid()
      modifies this, os
      ensures Valid()
      ensures libc == (if old(libc).Some? then old(libc) else os.dlopenOutcome(old(os.dlopens)))
      ensures os.dlopens == old(os.dlopens) + (if old(libc).Some? then 0 else 1)
      ensures libc.None? ==> r == Raise(LinkError) && func == old(func)
      ensures libc.Some? && old(func).Some? ==> r == Return(()) && func == old(func)
      ensures libc.Some? && old(func).None? && libc.value.exportsLockf ==>
        r == Return(()) && func == Some(Function(libc.value))
      ensures libc.Some? && old(func).None? && !libc.value.exportsLockf ==>
        r == Raise(DLError) && func == None
      ensures os.log == old(os.log) && os.errno == old(os.errno) && os.lastError == old(os.lastError)
    {
      if libc.None? {
        var lib := os.Dlopen();
        if lib.None? {
          return Raise(LinkError);  // the dlopen failure, re-raised as LinkError
        }
        libc := lib;
      }
      if func.None? {
        if !libc.value.exportsLockf {
          return Raise(DLError);    // @libc["lockf"] is outside the rescue
        }
        func := Some(Function(libc.value));
      }
      r := Return(());
    }

    /** Lockf::FFI#lockf(fd, fn, size = 0) */
    method Lockf(os: Os, fd: Value, fn: Value, size: Value := Int(0)) returns (r: Result<bool>)
      modifies os
      ensures var p := Plan(func, fd, fn, size);
        (p.Raise? ==> r == Raise(p.error) && os.log == old(os.log) &&
                      os.errno == old(os.errno) && os.lastError == old(os.lastError)) &&
        (p.Return? ==> os.log == old(os.log) + [p.value] &&
                       r == Fiddle.Verdict(os.lockfOutcome(|old(os.log)|)) &&
                       os.errno == ErrnoAfter(old(os.errno), os.lockfOutcome(|old(os.log)|)) &&
                       os.lastError == os.errno)
      ensures os.dlopens == old(os.dlopens)
    {
      var fileno := Fiddle.ResolveFileno(fd);
      if func.None? {
        return Raise(NoMethodError);
      }
      var status := Fiddle.Invoke(os, fileno, fn, size);
      match status
      case Raise(e) => r := Raise(e);
      case Return(s) => r := if s == 0 then Return(true) else Raise(SystemCallError(os.lastError));
    }
  }
}
